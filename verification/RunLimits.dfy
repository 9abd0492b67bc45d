/** The exact conditions for runs to leave a piece, or the whole disk, right. */
module RunLimits {
  import opened Bytes
  import opened Blocks
  import opened Pieces
  import opened PieceManagers
  import opened Disk
  import opened PieceStore
  import opened WriteLimits
  import opened Downloads
  import opened Safety
  import opened Convergence
  import opened Completion
  import opened Landing

  // ------------------------------------------------------- one piece arrives

  /** The steps only bring blocks of piece i. */
  ghost predicate OnlyPiece(steps: seq<(Action, Env)>, i: u32) {
    forall k :: 0 <= k < |steps| ==>
      steps[k].0.Deliver? && steps[k].0.event.ReceivedPiece? && steps[k].0.event.index == i
  }

  ghost predicate NothingWritten(pieces: PieceMap) {
    forall j :: j in pieces ==> !pieces[j].IsComplete()
  }

  /** Nothing is complete, and the disk is as it was. */
  ghost predicate Untouched(s: State, was: Files) {
    s.disk == Some(was) && NothingWritten(s.pieces)
  }

  lemma OpenBlockTouchesNothing(c: Config, s: State, i: u32, begin: u32, block: seq<byte>, env: Env, was: Files, q: PieceView)
    requires WellFormed(c, s) && PiecesSound(c, s.pieces) && Untouched(s, was) && i in s.pieces
    requires q == s.pieces[i].ReceiveBlock(c.sha1, begin, block) && !q.IsComplete()
    ensures Untouched(HandleReceivedPiece(c, s, i, begin, block, env), was)
  {
    HandledIs(c, s, i, begin, block, env, q);
  }

  /** The block that completes a piece has it written, once, with the bytes of the content. */
  lemma LastBlockWrites(c: Config, content: seq<byte>, s: State, i: u32, begin: u32, block: seq<byte>, peer: PeerIp,
                        env: Env, was: Files, q: PieceView)
    requires Proper(c) && Describes(c, content) && WellFormed(c, s) && Faithful(c, content, s.pieces)
    requires Untouched(s, was) && i in s.pieces && |block| < U32_RANGE && env.io.Works?
    requires HonestAction(c, content, Deliver(ReceivedPiece(i, begin, block), peer))
    requires q == s.pieces[i].ReceiveBlock(c.sha1, begin, block) && q.IsComplete()
    requires WritePiece(c.disk, was, i, PieceContent(c, content, i)).Some?
    ensures var t := HandleReceivedPiece(c, s, i, begin, block, env);
      Lists([i], t.pieces) && t.disk == WritePiece(c.disk, was, i, PieceContent(c, content, i))
  {
    FramedCastIsExact(s.pieces[i], begin, block);
    ReceiveKeepsSound(s.pieces[i], c.sha1, begin, block);
    ReplacedPieceKeepsSound(c, s.pieces, i, q);
    StateAfterBlock(c, content, s.pieces[i], i, begin, block, peer, q);
    HandledIs(c, s, i, begin, block, env, q);
    WorkingStore(c, s.(pieces := s.pieces[i := q]), i, env, PieceContent(c, content, i));
  }

  lemma StepKeepsComplete(c: Config, content: seq<byte>, s: State, action: Action, env: Env, i: u32)
    requires Proper(c) && Describes(c, content) && WellFormed(c, s) && Faithful(c, content, s.pieces)
    requires PossibleEnv(s, action, env) && FromWire(action) && HonestAction(c, content, action)
    requires i in s.pieces && s.pieces[i].IsComplete()
    ensures i in Step(c, s, action, env).pieces && Step(c, s, action, env).pieces[i].IsComplete()
  {
    StepKeepsFaith(c, content, s, action, env);
    CompleteByBlocks(c, s.pieces, i);
    assert Has(s.pieces, i, 0);
    CompleteByBlocks(c, Step(c, s, action, env).pieces, i);
  }

  /** A run of honest, working steps that bring blocks of piece i only, to a disk that is untouched. */
  ghost predicate PieceRun(c: Config, content: seq<byte>, was: Files, s: State, steps: seq<(Action, Env)>, i: u32) {
    && Proper(c) && Describes(c, content) && WellFormed(c, s) && Faithful(c, content, s.pieces) && Untouched(s, was)
    && AllFromWire(steps) && AllHonest(c, content, steps) && AllWritesWork(steps) && IsRun(c, s, steps)
    && OnlyPiece(steps, i) && i < |c.hashes|
  }

  lemma ShorterPieceRun(c: Config, content: seq<byte>, was: Files, s: State, steps: seq<(Action, Env)>, i: u32)
    requires PieceRun(c, content, was, s, steps, i) && steps != []
    ensures PieceRun(c, content, was, s, steps[..|steps| - 1], i)
  {
  }

  /** What one more step of such a run does, when the piece is not complete before it. */
  lemma NextStep(c: Config, content: seq<byte>, was: Files, mid: State, action: Action, env: Env, i: u32)
    requires Proper(c) && Describes(c, content) && WellFormed(c, mid) && Faithful(c, content, mid.pieces)
    requires Untouched(mid, was) && i < |c.hashes| && FromWire(action) && HonestAction(c, content, action)
    requires action.Deliver? && action.event.ReceivedPiece? && action.event.index == i && env.io.Works?
    requires WritePiece(c.disk, was, i, PieceContent(c, content, i)).Some?
    ensures var t := Step(c, mid, action, env);
      if i in t.pieces && t.pieces[i].IsComplete() then
        Lists([i], t.pieces) && t.disk == WritePiece(c.disk, was, i, PieceContent(c, content, i))
      else Untouched(t, was)
  {
    BlockStepIs(c, mid, action, env);
    var q := mid.pieces[i].ReceiveBlock(c.sha1, action.event.begin, action.event.block);
    if q.IsComplete() {
      LastBlockWrites(c, content, mid, i, action.event.begin, action.event.block, action.peer, env, was, q);
    } else {
      OpenBlockTouchesNothing(c, mid, i, action.event.begin, action.event.block, env, was, q);
    }
  }

  /** Until piece i is complete the run leaves the disk alone. */
  lemma {:induction false} StillUntouched(c: Config, content: seq<byte>, was: Files, s: State, steps: seq<(Action, Env)>,
                                          i: u32)
    requires PieceRun(c, content, was, s, steps, i)
    requires WritePiece(c.disk, was, i, PieceContent(c, content, i)).Some?
    requires var t := After(c, s, steps); !(i in t.pieces && t.pieces[i].IsComplete())
    ensures Untouched(After(c, s, steps), was)
    decreases |steps|
  {
    if steps != [] {
      var before, last := steps[..|steps| - 1], steps[|steps| - 1];
      assert last == steps[|steps| - 1];
      ShorterPieceRun(c, content, was, s, steps, i);
      HonestRunsLoseNothing(c, content, s, before);
      var mid := After(c, s, before);
      if mid.pieces[i].IsComplete() {
        StepKeepsComplete(c, content, mid, last.0, last.1, i);
      }
      StillUntouched(c, content, was, s, before, i);
      NextStep(c, content, was, mid, last.0, last.1, i);
    }
  }

  /** The outcome of the first m steps: piece i, and nothing else, is written, by a single write. */
  ghost predicate WrittenOnce(c: Config, content: seq<byte>, was: Files, s: State, steps: seq<(Action, Env)>, i: u32)
    requires WellFormed(c, s) && Opened(c.disk, was)
  {
    var t := After(c, s, steps);
    Lists([i], t.pieces) && t.disk == WritePiece(c.disk, was, i, PieceContent(c, content, i))
  }

  /** If a run completes piece i, then in some run, a beginning of it, it was written once. */
  lemma {:induction false} FirstWrite(c: Config, content: seq<byte>, was: Files, s: State, steps: seq<(Action, Env)>, i: u32)
    returns (run: seq<(Action, Env)>)
    requires PieceRun(c, content, was, s, steps, i) && Opened(c.disk, was)
    requires WritePiece(c.disk, was, i, PieceContent(c, content, i)).Some?
    requires var t := After(c, s, steps); i in t.pieces && t.pieces[i].IsComplete()
    ensures PieceRun(c, content, was, s, run, i) && WrittenOnce(c, content, was, s, run, i)
    decreases |steps|
  {
    assert steps != [];
    var before, last := steps[..|steps| - 1], steps[|steps| - 1];
    assert last == steps[|steps| - 1];
    ShorterPieceRun(c, content, was, s, steps, i);
    HonestRunsLoseNothing(c, content, s, before);
    var mid := After(c, s, before);
    if mid.pieces[i].IsComplete() {
      run := FirstWrite(c, content, was, s, before, i);
    } else {
      StillUntouched(c, content, was, s, before, i);
      NextStep(c, content, was, mid, last.0, last.1, i);
      run := steps;
    }
  }

  // ------------------------------------------------ a run from any one write

  /** Content of the length of the torrent that has `data` for piece i. */
  function Around(g: Geometry, i: u32, data: seq<byte>): (content: seq<byte>)
    requires At(g, i) + |data| <= g.Total()
    ensures |content| == g.Total() && content[At(g, i)..At(g, i) + |data|] == data
  {
    seq<byte>(At(g, i), _ => 0) + data + seq<byte>(g.Total() - At(g, i) - |data|, _ => 0)
  }

  /** The torrent of some content: its hashes are those of its pieces. */
  function TorrentOf(g: Geometry, blockSize: nat, sha1: Hasher, n: nat, content: seq<byte>): Config {
    Config(sha1, g.pieceLength,
           seq(n, j requires 0 <= j => sha1(content[Min(At(g, j), |content|)..Min(At(g, j) + g.pieceLength, |content|)])),
           blockSize, g)
  }

  /** The number of pieces fits the length of the torrent. */
  predicate HasPieces(g: Geometry, n: nat) {
    0 < g.pieceLength && 0 < n <= U32_RANGE && At(g, n - 1) < g.Total() <= At(g, n)
  }

  lemma TorrentDescribes(g: Geometry, blockSize: nat, sha1: Hasher, n: nat, content: seq<byte>)
    requires 0 < g.pieceLength && 0 < blockSize && 0 < n <= U32_RANGE && At(g, n - 1) < |content| <= At(g, n)
    ensures var c := TorrentOf(g, blockSize, sha1, n, content); Proper(c) && Describes(c, content)
  {
  }

  /** The blocks of piece i, delivered one after the other, are such a run, and complete the piece. */
  lemma PieceRunExists(c: Config, content: seq<byte>, was: Files, i: u32) returns (steps: seq<(Action, Env)>)
    requires Proper(c) && Describes(c, content) && HasShape(c.disk, was) && WellFormed(c, Initial(c, Some(was)))
    requires i < |c.hashes| && At(c.disk, i) + c.pieceLength <= |content|
    ensures PieceRun(c, content, was, Initial(c, Some(was)), steps, i)
    ensures var t := After(c, Initial(c, Some(was)), steps); i in t.pieces && t.pieces[i].IsComplete()
  {
    var s := Initial(c, Some(was));
    steps := BlockSteps(c, content, i, 0);
    InitiallyFaithful(c, content, Some(was));
    BlockStepsArePlain(c, content, i, 0);
    BlockStepsAreOfPiece(c, content, i, 0);
    PlainStepsAreRun(c, content, s, steps);
    PieceCompletes(c, content, s, steps, i, After(c, s, steps).pieces);
  }

  lemma {:induction false} BlockStepsAreOfPiece(c: Config, content: seq<byte>, i: u32, o: nat)
    requires 0 < c.blockSize && c.pieceLength < U32_RANGE
    ensures OnlyPiece(BlockSteps(c, content, i, o), i)
    decreases c.pieceLength - o
  {
    if o < c.pieceLength && At(c.disk, i) + BlockEnd(c, o) <= |content| {
      BlockStepsAreOfPiece(c, content, i, o + c.blockSize);
    }
  }

  lemma BlockOfPieceIsThere(c: Config, content: seq<byte>, s: State, steps: seq<(Action, Env)>, i: u32, o: nat,
                            after: PieceMap)
    requires Proper(c) && Describes(c, content) && WellFormed(c, s) && Faithful(c, content, s.pieces)
    requires AllFromWire(steps) && AllHonest(c, content, steps) && IsRun(c, s, steps)
    requires steps == BlockSteps(c, content, i, 0) && after == After(c, s, steps).pieces
    requires i < |c.hashes| && At(c.disk, i) + c.pieceLength <= |content| && BlockStart(c, o)
    ensures Has(after, i, o)
  {
    var k := BlockIsAmong(c, content, i, 0, o);
    BroughtIsKept(c, content, s, steps, k, i, o);
  }

  lemma PieceCompletes(c: Config, content: seq<byte>, s: State, steps: seq<(Action, Env)>, i: u32, after: PieceMap)
    requires Proper(c) && Describes(c, content) && WellFormed(c, s) && Faithful(c, content, s.pieces)
    requires AllFromWire(steps) && AllHonest(c, content, steps) && IsRun(c, s, steps)
    requires steps == BlockSteps(c, content, i, 0) && after == After(c, s, steps).pieces
    requires i < |c.hashes| && At(c.disk, i) + c.pieceLength <= |content|
    ensures i in after && after[i].IsComplete()
  {
    HonestRunsLoseNothing(c, content, s, steps);
    forall o | BlockStart(c, o) ensures Has(after, i, o) {
      BlockOfPieceIsThere(c, content, s, steps, i, o, after);
    }
    HeldPieceIsContent(c, content, after, i);
  }

  // -------------------------------------------------------- the equivalence

  /** Every run among honest peers, of every torrent laid out like this, leaves the right disk. */
  ghost predicate HonestRunsAreRight(g: Geometry, blockSize: nat, sha1: Hasher, n: nat) {
    forall c, content, was, steps :: RunOf(g, blockSize, sha1, n, c, content, was, steps) ==>
      RunIsRight(c, content, was, steps)
  }

  /** A working run of a torrent with this layout, block size, hash function and number of pieces. */
  ghost predicate RunOf(g: Geometry, blockSize: nat, sha1: Hasher, n: nat, c: Config, content: seq<byte>, was: Files,
                        steps: seq<(Action, Env)>) {
    && c.disk == g && c.blockSize == blockSize && c.sha1 == sha1 && |c.hashes| == n && |content| == g.Total()
    && WorkingRun(c, content, was, steps)
  }

  /** Each piece that lies wholly inside the torrent is writable. */
  predicate WholePiecesWritable(g: Geometry, n: nat) {
    forall i: u32 :: i < n && At(g, i) + g.pieceLength <= g.Total() ==> Writable(g, i)
  }

  /** A right disk with one piece written is the disk with that piece overwritten. */
  lemma RightIsOverwrite(g: Geometry, was: Files, now: Files, i: u32, content: u32 -> seq<byte>)
    requires HasShape(g, was) && DiskIsRight(g, was, now, [i], content) && |content(i)| == g.pieceLength
    requires 0 < g.pieceLength && At(g, i) + g.pieceLength <= g.Total()
    ensures HasShape(g, now) && Image(g, now) == WriteAt(Image(g, was), At(g, i), content(i))
  {
    var before, after, data := Image(g, was), Image(g, now), content(i);
    var right := WriteAt(before, At(g, i), data);
    assert i in [i] && WriteEnd(g, i) == At(g, i) + |data|;
    assert |after| == |right|;
    forall x: nat | x < |after| ensures after[x] == right[x] {
      assert ByteIsRight(g, before, after, [i], content, x);
      assert InPiece(g, i, x) ==> i in [i] && InPiece(g, i, x);
    }
  }

  lemma RunOfPiece(c: Config, content: seq<byte>, was: Files, i: u32) returns (steps: seq<(Action, Env)>)
    requires Proper(c) && Describes(c, content) && HasShape(c.disk, was) && WellFormed(c, Initial(c, Some(was)))
    requires i < |c.hashes| && At(c.disk, i) + c.pieceLength <= |content|
    requires WritePiece(c.disk, was, i, PieceContent(c, content, i)).Some?
    ensures WorkingRun(c, content, was, steps) && WrittenOnce(c, content, was, Initial(c, Some(was)), steps, i)
  {
    var all := PieceRunExists(c, content, was, i);
    steps := FirstWrite(c, content, was, Initial(c, Some(was)), all, i);
  }

  /** If a run that writes piece i once is right, then so is the write. */
  lemma RightRunWritesRight(c: Config, content: seq<byte>, was: Files, steps: seq<(Action, Env)>, i: u32)
    requires WorkingRun(c, content, was, steps) && RunIsRight(c, content, was, steps)
    requires WrittenOnce(c, content, was, Initial(c, Some(was)), steps, i) && i < |c.hashes|
    requires At(c.disk, i) + c.pieceLength <= |content| == c.disk.Total()
    ensures WriteIsRight(c.disk, was, i, PieceContent(c, content, i))
  {
    var now := After(c, Initial(c, Some(was)), steps).disk.value;
    assert DiskIsRight(c.disk, was, now, [i], Contents(c, content));
    RightIsOverwrite(c.disk, was, now, i, Contents(c, content));
    RoomFitsAll(c.disk, i, PieceContent(c, content, i));
  }

  lemma AcceptedIsSome(g: Geometry, files: Files, i: u32, data: seq<byte>)
    requires HasShape(g, files) && At(g, i) + g.pieceLength <= g.Total() && 0 < g.pieceLength
    ensures WritePiece(g, files, i, data).Some?
  {
    TimesIsProduct(i, g.pieceLength);
    assert g.Offset(i) <= At(g, i);
    AcceptedExactly(g, files, i, data);
  }

  /** Any data for a whole piece is the outcome of some run that writes it once. */
  lemma RunThatWrites(g: Geometry, blockSize: nat, sha1: Hasher, n: nat, i: u32, was: Files, data: seq<byte>)
    returns (c: Config, content: seq<byte>, steps: seq<(Action, Env)>)
    requires HasPieces(g, n) && 0 < blockSize
    requires i < n && At(g, i) + g.pieceLength <= g.Total() && HasShape(g, was) && |data| == g.pieceLength
    ensures RunOf(g, blockSize, sha1, n, c, content, was, steps)
    ensures At(g, i) + c.pieceLength <= |content| && PieceContent(c, content, i) == data
    ensures WrittenOnce(c, content, was, Initial(c, Some(was)), steps, i)
  {
    content := Around(g, i, data);
    c := TorrentOf(g, blockSize, sha1, n, content);
    TorrentDescribes(g, blockSize, sha1, n, content);
    AcceptedIsSome(g, was, i, data);
    assert PieceContent(c, content, i) == data;
    steps := RunOfPiece(c, content, was, i);
  }

  lemma ThisRunIsRight(g: Geometry, blockSize: nat, sha1: Hasher, n: nat, c: Config, content: seq<byte>, was: Files,
                       steps: seq<(Action, Env)>)
    requires HonestRunsAreRight(g, blockSize, sha1, n) && RunOf(g, blockSize, sha1, n, c, content, was, steps)
    ensures RunIsRight(c, content, was, steps)
  {
  }

  /** Right runs need every write of a whole piece to be right: each is the outcome of some run. */
  lemma RightRunsWriteRight(g: Geometry, blockSize: nat, sha1: Hasher, n: nat, i: u32, was: Files, data: seq<byte>)
    requires HasPieces(g, n) && 0 < blockSize && HonestRunsAreRight(g, blockSize, sha1, n)
    requires i < n && At(g, i) + g.pieceLength <= g.Total() && HasShape(g, was) && |data| == g.pieceLength
    ensures WriteIsRight(g, was, i, data)
  {
    var c, content, steps := RunThatWrites(g, blockSize, sha1, n, i, was, data);
    ThisRunIsRight(g, blockSize, sha1, n, c, content, was, steps);
    RightRunWritesRight(c, content, was, steps, i);
  }

  lemma WritableRunsAreRight(g: Geometry, blockSize: nat, sha1: Hasher, n: nat)
    requires HasPieces(g, n) && 0 < blockSize && WholePiecesWritable(g, n)
    ensures HonestRunsAreRight(g, blockSize, sha1, n)
  {
    forall c, content, was, steps | RunOf(g, blockSize, sha1, n, c, content, was, steps)
      ensures RunIsRight(c, content, was, steps)
    {
      WorkingRunIsRight(c, content, was, steps);
    }
  }

  /**
   * Runs among honest peers leave the right disk, for all contents, disks and runs, exactly when every
   * piece that lies wholly inside the torrent is writable. Pieces that `write_piece` refuses and a
   * short last piece do no harm.
   */
  lemma HonestRunsAreRightExactly(g: Geometry, blockSize: nat, sha1: Hasher, n: nat)
    requires HasPieces(g, n) && 0 < blockSize
    ensures HonestRunsAreRight(g, blockSize, sha1, n) <==> WholePiecesWritable(g, n)
  {
    if WholePiecesWritable(g, n) {
      WritableRunsAreRight(g, blockSize, sha1, n);
    } else if HonestRunsAreRight(g, blockSize, sha1, n) {
      var i: u32 :| i < n && At(g, i) + g.pieceLength <= g.Total() && !Writable(g, i);
      forall was, data | HasShape(g, was) && |data| == g.pieceLength ensures WriteIsRight(g, was, i, data) {
        RightRunsWriteRight(g, blockSize, sha1, n, i, was, data);
      }
      WritableExactly(g, i);
    }
  }

  // -------------------------------------------- one piece, over all runs

  /** A run of a torrent with this layout, whatever its peers do. */
  ghost predicate AnyRun(g: Geometry, blockSize: nat, sha1: Hasher, n: nat, c: Config, was: Files,
                         steps: seq<(Action, Env)>) {
    && c.disk == g && c.blockSize == blockSize && c.sha1 == sha1 && |c.hashes| == n
    && Proper(c) && WellFormed(c, Initial(c, Some(was)))
    && AllFromWire(steps) && IsRun(c, Initial(c, Some(was)), steps)
  }

  /** If piece i is marked written at the end of the run, it is on disk. */
  ghost predicate WrittenMeansOnDisk(c: Config, was: Files, steps: seq<(Action, Env)>, i: u32)
    requires Proper(c) && WellFormed(c, Initial(c, Some(was)))
  {
    var after := After(c, Initial(c, Some(was)), steps);
    i in after.pieces && after.pieces[i].state.Written? ==>
      after.disk.Some? && OnDisk(c.disk, Image(c.disk, after.disk.value), i, after.pieces[i])
  }

  /** So it is for all torrents with this layout, all disks and all runs. */
  ghost predicate AlwaysOnDisk(g: Geometry, blockSize: nat, sha1: Hasher, n: nat, i: u32) {
    forall c, was, steps :: AnyRun(g, blockSize, sha1, n, c, was, steps) ==> WrittenMeansOnDisk(c, was, steps, i)
  }

  lemma SmallTorrentIsUnwrapped(c: Config, steps: seq<(Action, Env)>)
    requires c.hashes != [] && At(c.disk, |c.hashes| - 1) < U32_RANGE
    ensures BlocksUnwrapped(c, steps)
  {
    forall k: int, i: u32 | 0 <= k < |steps| && For(steps[k].0, i) && i < |c.hashes|
      ensures Unwrapped(c.disk, i) {
      if i < |c.hashes| - 1 {
        TimesApart(i, |c.hashes| - 1, c.disk.pieceLength);
      }
    }
  }

  /** A writable piece that is marked is on disk, and a piece past the end is never marked. */
  lemma RunKeepsPieceOnDisk(g: Geometry, blockSize: nat, sha1: Hasher, n: nat, i: u32, c: Config, was: Files,
                            steps: seq<(Action, Env)>)
    requires 0 < n && At(g, n - 1) < U32_RANGE && i < n && (At(g, i) < g.Total() ==> Writable(g, i))
    requires AnyRun(g, blockSize, sha1, n, c, was, steps)
    ensures WrittenMeansOnDisk(c, was, steps, i)
  {
    var start := Initial(c, Some(was));
    var after := After(c, start, steps);
    SmallTorrentIsUnwrapped(c, steps);
    BlocksDecide(c, Some(was), steps);
    EveryRunIsSafe(c, Some(was), steps);
    if i in after.pieces && after.pieces[i].state.Written? {
      InitialPiecesSound(c, Some(was));
      NothingComplete(c, Some(was), i);
      WrittenIsAccepted(c, start, steps, i);
      if i < n - 1 {
        TimesApart(i, n - 1, g.pieceLength);
      }
      OffsetIsExact(g, i);
    }
  }

  lemma SameByteShows(lengths: seq<nat>, files: Files, now: Files, pos: nat, j: nat)
    requires Sized(lengths, files) && Sized(lengths, now) && j < |lengths|
    requires Start(lengths, j) <= pos < Start(lengths, j) + lengths[j]
    requires now[j][pos - Start(lengths, j)] == files[j][pos - Start(lengths, j)]
    ensures pos < |Flat(lengths, files)| && pos < |Flat(lengths, now)|
    ensures Flat(lengths, now)[pos] == Flat(lengths, files)[pos]
  {
    FlatAt(lengths, files, 0, j, pos - Start(lengths, j));
    FlatAt(lengths, now, 0, j, pos - Start(lengths, j));
  }

  /** Where the seek misplaces a piece, some byte of its place stays as it was. */
  lemma MisplacedByteStays(lengths: seq<nat>, files: Files, at: nat, data: seq<byte>, now: Files) returns (pos: nat)
    requires Sized(lengths, files) && Sized(lengths, now) && at < Start(lengths, |lengths|) && data != []
    requires !CodedSeekIsRight(lengths, at, |data|) && WriteMulti(AtPieceOffset, lengths, files, at, data) == Some(now)
    ensures at <= pos < Min(at + |data|, Start(lengths, |lengths|))
    ensures pos < |Flat(lengths, files)| && pos < |Flat(lengths, now)|
    ensures Flat(lengths, now)[pos] == Flat(lengths, files)[pos]
  {
    var j;
    pos, j := MisplacedByte(lengths, at, |data|);
    CodedMultiKeepsBelow(lengths, files, at, data, j, pos - Start(lengths, j));
    SameByteShows(lengths, files, now, pos, j);
  }

  /** All ones, written over all zeros by a seek that misplaces the piece, leave a zero in its place. */
  lemma MisplacedOnesShow(g: Geometry, i: u32, now: Files)
    requires 0 < g.pieceLength && At(g, i) < U32_RANGE && At(g, i) < g.Total() && !Writable(g, i)
    requires Opened(g, Zeros(g)) && WritePiece(g, Zeros(g), i, Ones(g.pieceLength)) == Some(now)
    ensures exists x: nat :: At(g, i) <= x < WriteEnd(g, i) && x < |Image(g, now)| && Image(g, now)[x] == 0
  {
    ZerosHaveShape(g);
    OffsetIsExact(g, i);
    var pos := MisplacedByteStays(g.layout.lengths, Zeros(g), At(g, i), Ones(g.pieceLength), now);
    assert Image(g, now)[pos] == Image(g, Zeros(g))[pos] == 0;
  }

  lemma OnDiskShows(g: Geometry, image: seq<byte>, i: u32, p: PieceView, x: nat)
    requires p.WellCut() && p.Hashed() == Some(Ones(g.pieceLength)) && At(g, i) <= x < WriteEnd(g, i)
    requires OnDisk(g, image, i, p)
    ensures x < |image| && image[x] == 1
  {
    assert image[At(g, i)..WriteEnd(g, i)][x - At(g, i)] == image[x];
  }

  lemma CompletePieceIsContent(c: Config, content: seq<byte>, pieces: PieceMap, i: u32)
    requires Proper(c) && Faithful(c, content, pieces) && i in pieces && pieces[i].IsComplete()
    ensures pieces[i].WellCut() && pieces[i].Hashed() == Some(PieceContent(c, content, i))
  {
    FullPieceIsContent(pieces[i], content, At(c.disk, i));
  }

  lemma MarkedPieceIsContent(c: Config, content: seq<byte>, was: Files, steps: seq<(Action, Env)>, i: u32, after: PieceMap)
    requires WorkingRun(c, content, was, steps) && after == After(c, Initial(c, Some(was)), steps).pieces
    requires i in after && after[i].IsComplete()
    ensures after[i].WellCut() && after[i].Hashed() == Some(PieceContent(c, content, i))
  {
    InitiallyFaithful(c, content, Some(was));
    HonestRunsLoseNothing(c, content, Initial(c, Some(was)), steps);
    CompletePieceIsContent(c, content, after, i);
  }

  lemma OnesAreOnes(c: Config, content: seq<byte>, i: u32)
    requires content == Ones(|content|) && c.disk.pieceLength == c.pieceLength && At(c.disk, i) + c.pieceLength <= |content|
    ensures PieceContent(c, content, i) == Ones(c.disk.pieceLength)
  {
  }

  /** A torrent of ones only, with a run that writes piece i once over zeros. */
  lemma RunOfOnes(g: Geometry, blockSize: nat, sha1: Hasher, n: nat, i: u32)
    returns (c: Config, content: seq<byte>, steps: seq<(Action, Env)>)
    requires 0 < g.pieceLength && 0 < blockSize && i < n <= U32_RANGE && Accepted(g, i)
    ensures HasShape(g, Zeros(g)) && WorkingRun(c, content, Zeros(g), steps)
    ensures AnyRun(g, blockSize, sha1, n, c, Zeros(g), steps)
    ensures WrittenOnce(c, content, Zeros(g), Initial(c, Some(Zeros(g))), steps, i)
    ensures PieceContent(c, content, i) == Ones(g.pieceLength)
  {
    content := Ones(At(g, n));
    c := TorrentOf(g, blockSize, sha1, n, content);
    ZerosHaveShape(g);
    TimesApart(n - 1, n, g.pieceLength);
    TimesApart(i, n, g.pieceLength);
    TorrentDescribes(g, blockSize, sha1, n, content);
    OnesAreOnes(c, content, i);
    AcceptedExactly(g, Zeros(g), i, PieceContent(c, content, i));
    steps := RunOfPiece(c, content, Zeros(g), i);
  }

  /** Where the seek misplaces piece i, some run marks it written and does not have it on disk. */
  lemma MisplacedPieceIsMissing(g: Geometry, blockSize: nat, sha1: Hasher, n: nat, i: u32)
    requires 0 < g.pieceLength && 0 < blockSize && i < n <= U32_RANGE
    requires At(g, i) < U32_RANGE && At(g, i) < g.Total() && !Writable(g, i)
    ensures !AlwaysOnDisk(g, blockSize, sha1, n, i)
  {
    OffsetIsExact(g, i);
    var c, content, steps := RunOfOnes(g, blockSize, sha1, n, i);
    var after := After(c, Initial(c, Some(Zeros(g))), steps);
    assert i in [i];
    MarkedPieceIsContent(c, content, Zeros(g), steps, i, after.pieces);
    MisplacedOnesShow(g, i, after.disk.value);
    var x: nat :| At(g, i) <= x < WriteEnd(g, i) && x < |Image(g, after.disk.value)| && Image(g, after.disk.value)[x] == 0;
    if OnDisk(g, Image(g, after.disk.value), i, after.pieces[i]) {
      OnDiskShows(g, Image(g, after.disk.value), i, after.pieces[i], x);
    }
    assert !WrittenMeansOnDisk(c, Zeros(g), steps, i);
  }

  /**
   * Piece by piece, and whatever the peers do: piece i is on disk whenever it is marked written, for all
   * torrents of this layout, all disks and all runs, exactly when it starts past the end of the torrent, where
   * `write_piece` refuses it, or is writable. It does not matter how many other pieces are misplaced.
   */
  lemma WrittenIsOnDiskExactly(g: Geometry, blockSize: nat, sha1: Hasher, n: nat, i: u32)
    requires 0 < g.pieceLength && 0 < blockSize && i < n <= U32_RANGE && At(g, n - 1) < U32_RANGE
    ensures AlwaysOnDisk(g, blockSize, sha1, n, i) <==> (At(g, i) < g.Total() ==> Writable(g, i))
  {
    if At(g, i) < g.Total() && !Writable(g, i) {
      if i < n - 1 {
        TimesApart(i, n - 1, g.pieceLength);
      }
      MisplacedPieceIsMissing(g, blockSize, sha1, n, i);
    } else {
      forall c, was, steps | AnyRun(g, blockSize, sha1, n, c, was, steps) ensures WrittenMeansOnDisk(c, was, steps, i) {
        RunKeepsPieceOnDisk(g, blockSize, sha1, n, i, c, was, steps);
      }
    }
  }

  // ----------------------------------------------------------------- witness

  /** Two files of one byte each, one piece a file, and the seek as coded. */
  const TWO_FILES: Geometry := Geometry(MultiFile([1, 1]), 1, AtPieceOffset)

  lemma TwoStarts()
    ensures Start([1, 1], 1) == 1 && Start([1, 1], 2) == 2 && TWO_FILES.Total() == 2
    ensures At(TWO_FILES, 1) == 1 && At(TWO_FILES, 2) == 2
  {
    assert Start([1, 1], 1) == 1;
  }

  /** The second piece goes behind the end of the second file: the file grows, and its own byte stays. */
  lemma SecondByteIsMisplaced(was: byte, data: byte)
    ensures Opened(TWO_FILES, [[was], [was]])
    ensures WritePiece(TWO_FILES, [[was], [was]], 1, [data]) == Some([[was], [was, data]])
  {
    TwoStarts();
    var lengths: seq<nat>, files: Files := [1, 1], [[was], [was]];
    LocateIsUnique(lengths, 1, 0, 1);
    WriteStartsAt(AtPieceOffset, lengths, files, 1, [data], 1);
    assert WriteAt([was], 1, [data]) == [was, data];
    assert files[1 := [was, data]] == [[was], [was, data]];
    assert [data][..1] == [data] && [data][1..] == [];
  }

  /** So some run among honest peers leaves this torrent wrong, whatever the hash function. */
  lemma TwoFilesGoWrong(sha1: Hasher)
    ensures !HonestRunsAreRight(TWO_FILES, 1, sha1, 2)
  {
    TwoStarts();
    HonestRunsAreRightExactly(TWO_FILES, 1, sha1, 2);
    assert FirstNonEmpty([1, 1], 0) == 1;
    assert !Writable(TWO_FILES, 1);
  }
}
