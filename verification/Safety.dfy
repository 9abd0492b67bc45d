/** What holds in every reachable state of the download manager, and of everything it sends. */
module Safety {
  import opened Bytes
  import opened Blocks
  import opened Pieces
  import opened PieceManagers
  import opened Disk
  import opened PieceStore
  import opened Downloads

  /** Non-empty pieces that can be cut, and a disk that knows their length. */
  predicate Proper(c: Config) {
    && 0 < c.pieceLength < U32_RANGE && 0 < c.blockSize
    && |c.hashes| <= U32_RANGE
    && c.disk.pieceLength == c.pieceLength
  }

  /** Blocks come out of frames whose length is a u32 (Messages.BlocksFitU32). */
  predicate FromWire(action: Action) {
    action.Deliver? && action.event.ReceivedPiece? ==> |action.event.block| < U32_RANGE
  }

  ghost predicate AllFromWire(steps: seq<(Action, Env)>) {
    forall k :: 0 <= k < |steps| ==> FromWire(steps[k].0)
  }

  // ------------------------------------------------------------------- pieces

  ghost predicate PieceSound(c: Config, p: PieceView, i: u32)
    requires i < |c.hashes|
  {
    && p.index == i && p.length == c.pieceLength && p.hash == c.hashes[i] && p.blockSize == c.blockSize
    && Sound(p, c.sha1)
  }

  ghost predicate PiecesSound(c: Config, pieces: PieceMap) {
    && (forall i: u32 {:trigger i in pieces} :: i in pieces <==> i < |c.hashes|)
    && (forall i :: i in pieces ==> PieceSound(c, pieces[i], i))
  }

  lemma InitialPiecesSound(c: Config, disk: Option<Files>)
    requires Proper(c)
    ensures PiecesSound(c, Initial(c, disk).pieces)
  {
    var pieces := Initial(c, disk).pieces;
    forall i | i in pieces ensures PieceSound(c, pieces[i], i) {
      NewPieceIsSound(i, c.pieceLength, c.hashes[i], c.blockSize, c.sha1);
    }
  }

  lemma ReplacedPieceKeepsSound(c: Config, pieces: PieceMap, i: u32, p: PieceView)
    requires PiecesSound(c, pieces) && i in pieces && SamePiece(pieces[i], p) && Sound(p, c.sha1)
    ensures PiecesSound(c, pieces[i := p])
  {
  }

  lemma UnchokeKeepsSound(c: Config, s: State, peer: PeerIp, env: Env)
    requires WellFormed(c, s) && PiecesSound(c, s.pieces) && PickIsOpen(s, peer, env.block)
    ensures PiecesSound(c, HandleUnchoke(s, peer, env).pieces)
  {
    var next := NextPiece(s.pieces, Listing(s, peer));
    if next.Some? && next.value in s.pieces {
      var i := next.value;
      if env.block in s.pieces[i].blocks && !s.pieces[i].FullyDownloaded() {
        RequestKeepsSound(s.pieces[i], c.sha1, env.block, peer, env.now);
        ReplacedPieceKeepsSound(c, s.pieces, i, s.pieces[i].Request(env.block, peer, env.now));
      }
    }
  }

  lemma BlockKeepsSound(c: Config, s: State, i: u32, begin: nat, block: seq<byte>)
    requires WellFormed(c, s) && PiecesSound(c, s.pieces) && i in s.pieces && |block| < U32_RANGE
    ensures WellFormed(c, WithBlock(c, s, i, begin, block)) && PiecesSound(c, WithBlock(c, s, i, begin, block).pieces)
  {
    FramedCastIsExact(s.pieces[i], begin, block);
    ReceiveKeepsSound(s.pieces[i], c.sha1, begin, block);
    ReplacedPieceKeepsSound(c, s.pieces, i, s.pieces[i].ReceiveBlock(c.sha1, begin, block));
  }

  /** Storing changes the piece at most from complete to written. */
  lemma StoreMarksAtMost(c: Config, s: State, i: u32, env: Env)
    requires WellFormed(c, s) && i in s.pieces
    ensures var t := StorePiece(c, s, i, env);
      t.pieces == s.pieces || (s.pieces[i].IsComplete() && t.pieces == s.pieces[i := s.pieces[i].MarkWritten()])
  {
  }

  lemma StoreKeepsComplete(c: Config, s: State, i: u32, env: Env)
    requires WellFormed(c, s) && i in s.pieces
    ensures i in StorePiece(c, s, i, env).pieces
    ensures StorePiece(c, s, i, env).pieces[i].IsComplete() == s.pieces[i].IsComplete()
  {
    StoreMarksAtMost(c, s, i, env);
  }

  lemma StoreKeepsSound(c: Config, s: State, i: u32, env: Env)
    requires WellFormed(c, s) && PiecesSound(c, s.pieces) && i in s.pieces
    ensures PiecesSound(c, StorePiece(c, s, i, env).pieces)
  {
    StoreMarksAtMost(c, s, i, env);
    if s.pieces[i].IsComplete() {
      MarkWrittenKeepsSound(s.pieces[i], c.sha1);
      ReplacedPieceKeepsSound(c, s.pieces, i, s.pieces[i].MarkWritten());
    }
  }

  lemma ReceivedPieceKeepsSound(c: Config, s: State, i: u32, begin: nat, block: seq<byte>, env: Env)
    requires WellFormed(c, s) && PiecesSound(c, s.pieces) && |block| < U32_RANGE
    ensures PiecesSound(c, HandleReceivedPiece(c, s, i, begin, block, env).pieces)
  {
    if i in s.pieces {
      BlockKeepsSound(c, s, i, begin, block);
      StoreKeepsSound(c, WithBlock(c, s, i, begin, block), i, env);
    }
  }

  lemma StepKeepsPiecesSound(c: Config, s: State, action: Action, env: Env)
    requires WellFormed(c, s) && PiecesSound(c, s.pieces) && PossibleEnv(s, action, env) && FromWire(action)
    ensures PiecesSound(c, Step(c, s, action, env).pieces)
  {
    if IsQuiet(s, action) {
      QuietStepIs(c, s, action, env);
    } else if action.ResetTimeouts? {
      TimeoutStepIs(c, s, action, env);
      ResetKeepsSound(s.pieces[action.index], c.sha1, env.now);
      ReplacedPieceKeepsSound(c, s.pieces, action.index, s.pieces[action.index].ResetTimeouts(env.now));
    } else if action.event.PeerUnchoked? {
      UnchokeStepIs(c, s, action, env);
      UnchokeKeepsSound(c, s, action.peer, env);
    } else {
      BlockStepIs(c, s, action, env);
      ReceivedPieceKeepsSound(c, s, action.event.index, action.event.begin, action.event.block, env);
    }
  }

  lemma {:induction false} RunKeepsPiecesSound(c: Config, s: State, steps: seq<(Action, Env)>)
    requires WellFormed(c, s) && PiecesSound(c, s.pieces) && AllFromWire(steps) && IsRun(c, s, steps)
    ensures PiecesSound(c, After(c, s, steps).pieces)
    decreases |steps|
  {
    if steps != [] {
      var before, last := steps[..|steps| - 1], steps[|steps| - 1];
      assert last == steps[|steps| - 1];
      RunKeepsPiecesSound(c, s, before);
      StepKeepsPiecesSound(c, After(c, s, before), last.0, last.1);
    }
  }

  /**
   * In every reachable state each piece is sound: it is complete exactly when all its blocks are
   * there, and then its bytes have the hash of the torrent.
   */
  lemma PiecesStaySound(c: Config, disk: Option<Files>, steps: seq<(Action, Env)>)
    requires Proper(c) && (disk.Some? ==> Opened(c.disk, disk.value))
    requires AllFromWire(steps) && WellFormed(c, Initial(c, disk)) && IsRun(c, Initial(c, disk), steps)
    ensures PiecesSound(c, After(c, Initial(c, disk), steps).pieces)
  {
    InitialPiecesSound(c, disk);
    RunKeepsPiecesSound(c, Initial(c, disk), steps);
  }

  // --------------------------------------------------------------------- disk

  /**
   * A written piece is on disk: its place in the image holds the very bytes that were hashed, as far
   * as there is room for them.
   */
  ghost predicate OnDisk(g: Geometry, image: seq<byte>, i: u32, p: PieceView)
    requires p.WellCut()
  {
    && p.Hashed().Some? && |p.Hashed().value| == g.pieceLength
    && At(g, i) < g.Total() && WriteEnd(g, i) <= |image|
    && image[At(g, i)..WriteEnd(g, i)] == p.Hashed().value[..WriteEnd(g, i) - At(g, i)]
  }

  /** Every written piece that is writable is on disk; the seek may misplace the others. */
  ghost predicate WritableOnDisk(g: Geometry, image: seq<byte>, pieces: PieceMap)
    requires forall i :: i in pieces ==> pieces[i].WellCut()
  {
    forall i :: i in pieces && pieces[i].state.Written? && Writable(g, i) ==> OnDisk(g, image, i, pieces[i])
  }

  /** No piece is marked written without a disk; with one, the written pieces are on it that can be. */
  ghost predicate DiskHolds(c: Config, s: State)
    requires WellFormed(c, s)
  {
    match s.disk
    case None => forall i :: i in s.pieces ==> !s.pieces[i].state.Written?
    case Some(files) => WritableOnDisk(c.disk, Image(c.disk, files), s.pieces)
  }

  /** Unless `write_piece` refuses the piece, the u32 arithmetic on its offset does not wrap. */
  predicate Unwrapped(g: Geometry, i: u32) {
    Accepted(g, i) ==> At(g, i) < U32_RANGE
  }

  ghost predicate CompleteUnwrapped(c: Config, pieces: PieceMap) {
    forall i :: i in pieces && pieces[i].IsComplete() ==> Unwrapped(c.disk, i)
  }

  /** The offsets of all pieces that are ever complete in the run do not wrap. */
  ghost predicate AllUnwrapped(c: Config, s: State, steps: seq<(Action, Env)>)
    requires WellFormed(c, s)
    decreases |steps|
  {
    steps == [] || (AllUnwrapped(c, s, steps[..|steps| - 1]) && CompleteUnwrapped(c, After(c, s, steps).pieces))
  }

  /** The invariant of the download manager. */
  ghost predicate Safe(c: Config, s: State) {
    WellFormed(c, s) && PiecesSound(c, s.pieces) && DiskHolds(c, s)
  }

  /** A block makes a piece leave the state Written, unless its offset is unknown and nothing changes. */
  lemma WrittenIsLeftOnReceipt(p: PieceView, sha1: Hasher, offset: nat, data: seq<byte>)
    requires Sound(p, sha1) && |data| < U32_RANGE
    ensures p.ReceiveBlock(sha1, offset, data) == p || !p.ReceiveBlock(sha1, offset, data).state.Written?
  {
    if offset in p.blocks {
      FramedCastIsExact(p, offset, data);
      StoreKeepsShaped(p, offset, data);
      if p.Store(offset, data).FullyDownloaded() {
        FullPieceIsHashedWhole(p.Store(offset, data));
      }
    }
  }

  lemma CompleteIsNotReset(p: PieceView, sha1: Hasher, now: int)
    requires Sound(p, sha1) && p.IsComplete()
    ensures p.ResetTimeouts(now) == p
  {
    assert p.ResetTimeouts(now).blocks == p.blocks;
  }

  lemma ReplacedPieceKeepsDisk(c: Config, s: State, i: u32, p: PieceView)
    requires WellFormed(c, s) && DiskHolds(c, s) && i in s.pieces && p.WellCut()
    requires p == s.pieces[i] || !p.state.Written?
    ensures WellFormed(c, s.(pieces := s.pieces[i := p])) && DiskHolds(c, s.(pieces := s.pieces[i := p]))
  {
  }

  lemma OtherPieceStaysOnDisk(g: Geometry, image: seq<byte>, i: u32, data: seq<byte>, j: u32, p: PieceView)
    requires p.WellCut() && OnDisk(g, image, j, p) && i != j && |data| <= g.pieceLength
    ensures OnDisk(g, WriteAt(image, At(g, i), data), j, p)
  {
    if i < j {
      TimesApart(i, j, g.pieceLength);
    } else {
      TimesApart(j, i, g.pieceLength);
    }
    OtherStretch(image, At(g, i), data, At(g, j), WriteEnd(g, j));
  }

  lemma SameBytesStayOnDisk(g: Geometry, image: seq<byte>, now: seq<byte>, j: u32, p: PieceView)
    requires p.WellCut() && OnDisk(g, image, j, p) && WriteEnd(g, j) <= |now|
    requires forall x :: At(g, j) <= x < WriteEnd(g, j) ==> now[x] == image[x]
    ensures OnDisk(g, now, j, p)
  {
    assert now[At(g, j)..WriteEnd(g, j)] == image[At(g, j)..WriteEnd(g, j)];
  }

  /** A misplaced write leaves the earlier pieces on disk. */
  lemma EarlierPieceStaysOnDisk(g: Geometry, files: Files, i: u32, data: seq<byte>, j: u32, p: PieceView)
    requires Opened(g, files) && At(g, i) < U32_RANGE && At(g, i) < g.Total() && |data| <= g.pieceLength
    requires 0 < g.pieceLength && p.WellCut() && OnDisk(g, Image(g, files), j, p) && j < i
    ensures WritePiece(g, files, i, data).Some?
    ensures OnDisk(g, Image(g, WritePiece(g, files, i, data).value), j, p)
  {
    TimesApart(j, i, g.pieceLength);
    OffsetIsExact(g, i);
    AcceptedExactly(g, files, i, data);
    var now := Image(g, WritePiece(g, files, i, data).value);
    WriteKeepsBelow(g, files, i, data, WriteEnd(g, j) - 1);
    forall x | At(g, j) <= x < WriteEnd(g, j) ensures now[x] == Image(g, files)[x] {
      WriteKeepsBelow(g, files, i, data, x);
    }
    SameBytesStayOnDisk(g, Image(g, files), now, j, p);
  }

  lemma WritableStaysOnDisk(g: Geometry, files: Files, i: u32, data: seq<byte>, j: u32, p: PieceView)
    requires Opened(g, files) && At(g, i) < U32_RANGE && At(g, i) < g.Total() && |data| <= g.pieceLength
    requires 0 < g.pieceLength && p.WellCut() && OnDisk(g, Image(g, files), j, p) && j != i && Writable(g, j)
    ensures WritePiece(g, files, i, data).Some?
    ensures OnDisk(g, Image(g, WritePiece(g, files, i, data).value), j, p)
  {
    if i < j {
      WritableBelow(g, i, j);
      WritePieceLaw(g, files, i, data);
      OtherPieceStaysOnDisk(g, Image(g, files), i, Fit(g, i, data), j, p);
    } else {
      EarlierPieceStaysOnDisk(g, files, i, data, j, p);
    }
  }

  /** Writing piece i, or a prefix of it, in place or not, disturbs no other writable piece on disk. */
  lemma WriteKeepsOthers(g: Geometry, files: Files, pieces: PieceMap, i: u32, data: seq<byte>)
    requires Opened(g, files) && At(g, i) < U32_RANGE && At(g, i) < g.Total() && |data| <= g.pieceLength
    requires 0 < g.pieceLength && (forall j :: j in pieces ==> pieces[j].WellCut())
    requires WritableOnDisk(g, Image(g, files), pieces)
    requires i in pieces ==> !pieces[i].state.Written?
    ensures WritePiece(g, files, i, data).Some?
    ensures WritableOnDisk(g, Image(g, WritePiece(g, files, i, data).value), pieces)
  {
    OffsetIsExact(g, i);
    AcceptedExactly(g, files, i, data);
    var now := Image(g, WritePiece(g, files, i, data).value);
    forall j | j in pieces && pieces[j].state.Written? && Writable(g, j) ensures OnDisk(g, now, j, pieces[j]) {
      WritableStaysOnDisk(g, files, i, data, j, pieces[j]);
    }
  }

  lemma WholeWriteIsOnDisk(g: Geometry, files: Files, i: u32, p: PieceView)
    requires p.WellCut() && p.Hashed().Some? && |p.Hashed().value| == g.pieceLength
    requires Opened(g, files) && 0 < g.pieceLength && Writable(g, i)
    ensures WritePiece(g, files, i, p.Hashed().value).Some?
    ensures OnDisk(g, Image(g, WritePiece(g, files, i, p.Hashed().value).value), i, p)
  {
    var data := p.Hashed().value;
    var part := Fit(g, i, data);
    WritePieceLaw(g, files, i, data);
    FitEnds(g, i, data);
    WrittenStretch(Image(g, files), At(g, i), part, |part|);
    assert part[..|part|] == part == data[..|part|];
  }

  lemma StoredDataIsHashed(c: Config, p: PieceView, i: u32)
    requires i < |c.hashes| && PieceSound(c, p, i) && p.state.Complete?
    ensures p.Data() == p.Hashed() && p.Hashed().Some? && |p.Hashed().value| == c.pieceLength
  {
    FullPieceIsHashedWhole(p);
  }

  lemma MarkKeepsHashed(p: PieceView)
    requires p.WellCut()
    ensures p.MarkWritten().WellCut() && p.MarkWritten().Hashed() == p.Hashed()
  {
  }

  /** The part of the data that a write, working or failing, hands to the disk. */
  function Stored(io: Io, data: seq<byte>): seq<byte> {
    if io.Works? then data else data[..Min(io.stored, |data|)]
  }

  /**
   * Storing a complete piece: what is written, marked and announced when the write works, what is
   * left when it fails, and that a refused piece changes nothing. No condition on the disk is needed.
   */
  lemma StorePieceLaw(c: Config, s: State, i: u32, env: Env)
    requires WellFormed(c, s) && PiecesSound(c, s.pieces) && i in s.pieces
    ensures !(s.pieces[i].state.Complete? && s.disk.Some?) ==> StorePiece(c, s, i, env) == s
    ensures s.pieces[i].state.Complete? && s.disk.Some? ==>
      s.pieces[i].Hashed().Some? && |s.pieces[i].Hashed().value| == c.pieceLength &&
      var now := WritePiece(c.disk, s.disk.value, i, Stored(env.io, s.pieces[i].Hashed().value));
      StorePiece(c, s, i, env) ==
        if now.None? then s
        else if env.io.Works? then
          s.(disk := now, pieces := s.pieces[i := s.pieces[i].(state := PieceState.Written)],
             sent := s.sent + HavesFor(env.order, i))
        else s.(disk := now)
  {
    if s.pieces[i].state.Complete? && s.disk.Some? {
      StoredDataIsHashed(c, s.pieces[i], i);
    }
  }

  lemma MarkedPieceIsOnDisk(g: Geometry, image: seq<byte>, pieces: PieceMap, i: u32)
    requires forall j :: j in pieces ==> pieces[j].WellCut()
    requires WritableOnDisk(g, image, pieces) && i in pieces && (Writable(g, i) ==> OnDisk(g, image, i, pieces[i]))
    ensures var marked := pieces[i := pieces[i].MarkWritten()];
      (forall j :: j in marked ==> marked[j].WellCut()) && WritableOnDisk(g, image, marked)
  {
    MarkKeepsHashed(pieces[i]);
  }

  lemma StoreKeepsDisk(c: Config, s: State, i: u32, env: Env)
    requires Proper(c) && Safe(c, s) && i in s.pieces && (s.pieces[i].IsComplete() ==> Unwrapped(c.disk, i))
    ensures DiskHolds(c, StorePiece(c, s, i, env))
  {
    StorePieceLaw(c, s, i, env);
    if s.pieces[i].state.Complete? && s.disk.Some? {
      var data := s.pieces[i].Hashed().value;
      AcceptedExactly(c.disk, s.disk.value, i, Stored(env.io, data));
      if Accepted(c.disk, i) {
        OffsetIsExact(c.disk, i);
        AcceptedKeepsDisk(c, s, i, env, StorePiece(c, s, i, env), data);
      }
    }
  }

  lemma AcceptedKeepsDisk(c: Config, s: State, i: u32, env: Env, t: State, data: seq<byte>)
    requires Proper(c) && Safe(c, s) && i in s.pieces && At(c.disk, i) < U32_RANGE && At(c.disk, i) < c.disk.Total()
    requires s.disk.Some?
    requires s.pieces[i].state.Complete? && s.pieces[i].Hashed() == Some(data) && |data| == c.pieceLength
    requires WellFormed(c, t) && t.disk == WritePiece(c.disk, s.disk.value, i, Stored(env.io, data))
    requires t.pieces == if env.io.Works? then s.pieces[i := s.pieces[i].MarkWritten()] else s.pieces
    ensures DiskHolds(c, t)
  {
    WriteKeepsOthers(c.disk, s.disk.value, s.pieces, i, Stored(env.io, data));
    if env.io.Works? {
      if Writable(c.disk, i) {
        WholeWriteIsOnDisk(c.disk, s.disk.value, i, s.pieces[i]);
      }
      MarkedPieceIsOnDisk(c.disk, Image(c.disk, t.disk.value), s.pieces, i);
    }
  }

  lemma UnchokeKeepsDisk(c: Config, s: State, peer: PeerIp, env: Env)
    requires Safe(c, s) && PickIsOpen(s, peer, env.block)
    ensures DiskHolds(c, HandleUnchoke(s, peer, env))
  {
    var next := NextPiece(s.pieces, Listing(s, peer));
    NextPieceIsThere(s.pieces, Listing(s, peer));
    if next.Some? && env.block in s.pieces[next.value].blocks {
      ReplacedPieceKeepsDisk(c, s, next.value, s.pieces[next.value].Request(env.block, peer, env.now));
    }
  }

  lemma NewPieceKeepsSafe(c: Config, s: State, i: u32, p: PieceView)
    requires Safe(c, s) && i in s.pieces && SamePiece(s.pieces[i], p) && Sound(p, c.sha1)
    requires p == s.pieces[i] || !p.state.Written?
    ensures Safe(c, s.(pieces := s.pieces[i := p]))
  {
    ReplacedPieceKeepsSound(c, s.pieces, i, p);
    ReplacedPieceKeepsDisk(c, s, i, p);
  }

  lemma BlockKeepsSafe(c: Config, s: State, i: u32, begin: nat, block: seq<byte>)
    requires Safe(c, s) && i in s.pieces && |block| < U32_RANGE
    ensures Safe(c, WithBlock(c, s, i, begin, block))
  {
    FramedCastIsExact(s.pieces[i], begin, block);
    ReceiveKeepsSound(s.pieces[i], c.sha1, begin, block);
    WrittenIsLeftOnReceipt(s.pieces[i], c.sha1, begin, block);
    NewPieceKeepsSafe(c, s, i, s.pieces[i].ReceiveBlock(c.sha1, begin, block));
  }

  lemma TimeoutsKeepDisk(c: Config, s: State, i: u32, now: int)
    requires Safe(c, s) && i in s.pieces
    ensures s.pieces[i].ResetTimeouts(now).WellCut()
    ensures DiskHolds(c, s.(pieces := s.pieces[i := s.pieces[i].ResetTimeouts(now)]))
  {
    if s.pieces[i].IsComplete() {
      CompleteIsNotReset(s.pieces[i], c.sha1, now);
    }
    ReplacedPieceKeepsDisk(c, s, i, s.pieces[i].ResetTimeouts(now));
  }

  lemma ReceivedPieceKeepsDisk(c: Config, s: State, i: u32, begin: nat, block: seq<byte>, env: Env)
    requires Proper(c) && Safe(c, s) && |block| < U32_RANGE
    requires CompleteUnwrapped(c, HandleReceivedPiece(c, s, i, begin, block, env).pieces)
    ensures DiskHolds(c, HandleReceivedPiece(c, s, i, begin, block, env))
  {
    if i in s.pieces {
      BlockKeepsSafe(c, s, i, begin, block);
      StoreKeepsComplete(c, WithBlock(c, s, i, begin, block), i, env);
      StoreKeepsDisk(c, WithBlock(c, s, i, begin, block), i, env);
    }
  }

  lemma StepKeepsDisk(c: Config, s: State, action: Action, env: Env)
    requires Proper(c) && Safe(c, s) && PossibleEnv(s, action, env) && FromWire(action)
    requires CompleteUnwrapped(c, Step(c, s, action, env).pieces)
    ensures DiskHolds(c, Step(c, s, action, env))
  {
    if IsQuiet(s, action) {
      QuietStepIs(c, s, action, env);
    } else if action.ResetTimeouts? {
      TimeoutStepIs(c, s, action, env);
      TimeoutsKeepDisk(c, s, action.index, env.now);
    } else if action.event.PeerUnchoked? {
      UnchokeStepIs(c, s, action, env);
      UnchokeKeepsDisk(c, s, action.peer, env);
    } else {
      BlockStepIs(c, s, action, env);
      ReceivedPieceKeepsDisk(c, s, action.event.index, action.event.begin, action.event.block, env);
    }
  }

  lemma {:induction false} RunKeepsSafe(c: Config, s: State, steps: seq<(Action, Env)>)
    requires Proper(c) && Safe(c, s) && AllUnwrapped(c, s, steps) && AllFromWire(steps) && IsRun(c, s, steps)
    ensures Safe(c, After(c, s, steps))
    decreases |steps|
  {
    RunKeepsPiecesSound(c, s, steps);
    if steps != [] {
      var before, last := steps[..|steps| - 1], steps[|steps| - 1];
      assert last == steps[|steps| - 1];
      RunKeepsSafe(c, s, before);
      StepKeepsDisk(c, After(c, s, before), last.0, last.1);
    }
  }

  lemma InitiallySafe(c: Config, disk: Option<Files>)
    requires Proper(c) && WellFormed(c, Initial(c, disk))
    ensures Safe(c, Initial(c, disk))
  {
    InitialPiecesSound(c, disk);
  }

  /**
   * Safety over whole runs: whatever the events, duplicates, bad data, misplaced and failing writes, each
   * writable piece marked written stands on disk byte for byte as it was hashed, as far as there is room
   * for it, and its hash is the torrent's. Later writes never disturb it, wherever they land.
   */
  lemma EveryRunIsSafe(c: Config, disk: Option<Files>, steps: seq<(Action, Env)>)
    requires Proper(c) && AllFromWire(steps) && WellFormed(c, Initial(c, disk)) && IsRun(c, Initial(c, disk), steps)
    requires AllUnwrapped(c, Initial(c, disk), steps)
    ensures Safe(c, After(c, Initial(c, disk), steps))
  {
    InitiallySafe(c, disk);
    RunKeepsSafe(c, Initial(c, disk), steps);
  }

  // --------------------------------------------- where complete pieces come from

  /** The action delivers a block for piece i. */
  predicate For(action: Action, i: u32) {
    action.Deliver? && action.event.ReceivedPiece? && action.event.index == i
  }

  ghost predicate GotBlock(steps: seq<(Action, Env)>, i: u32) {
    exists k :: 0 <= k < |steps| && For(steps[k].0, i)
  }

  lemma UnchokeKeepsStates(s: State, peer: PeerIp, env: Env)
    ensures var t := HandleUnchoke(s, peer, env);
      t.disk == s.disk && t.pieces.Keys == s.pieces.Keys
      && forall i :: i in s.pieces ==> t.pieces[i].state == s.pieces[i].state
  {
  }

  /** Only a block for piece i changes its state. */
  lemma OtherStepKeepsState(c: Config, s: State, action: Action, env: Env, i: u32)
    requires WellFormed(c, s) && i in s.pieces && !For(action, i)
    ensures i in Step(c, s, action, env).pieces && Step(c, s, action, env).pieces[i].state == s.pieces[i].state
  {
    if IsQuiet(s, action) {
      QuietStepIs(c, s, action, env);
    } else if action.ResetTimeouts? {
      TimeoutStepIs(c, s, action, env);
    } else if action.event.PeerUnchoked? {
      UnchokeStepIs(c, s, action, env);
      UnchokeKeepsStates(s, action.peer, env);
    } else {
      BlockStepIs(c, s, action, env);
      if action.event.index in s.pieces {
        StoreMarksAtMost(c, WithBlock(c, s, action.event.index, action.event.begin, action.event.block),
                         action.event.index, env);
      }
    }
  }

  /** A piece that a run completes got a block in it. */
  lemma {:induction false} CompleteGotBlock(c: Config, s: State, steps: seq<(Action, Env)>, i: u32)
    requires WellFormed(c, s) && i in s.pieces && !s.pieces[i].IsComplete() && !GotBlock(steps, i)
    ensures i in After(c, s, steps).pieces && !After(c, s, steps).pieces[i].IsComplete()
    decreases |steps|
  {
    if steps != [] {
      var before, last := steps[..|steps| - 1], steps[|steps| - 1];
      assert last == steps[|steps| - 1];
      assert !For(last.0, i);
      forall k | 0 <= k < |before| ensures !For(before[k].0, i) {
        assert before[k] == steps[k];
      }
      CompleteGotBlock(c, s, before, i);
      OtherStepKeepsState(c, After(c, s, before), last.0, last.1, i);
    }
  }

  /** A block leaves a piece written only if it was, and storing marks only what `write_piece` accepts. */
  lemma StepMarksAccepted(c: Config, s: State, action: Action, env: Env, i: u32)
    requires WellFormed(c, s) && PiecesSound(c, s.pieces) && FromWire(action) && i in s.pieces
    requires i in Step(c, s, action, env).pieces && Step(c, s, action, env).pieces[i].state.Written?
    ensures s.pieces[i].state.Written? || Accepted(c.disk, i)
  {
    if For(action, i) {
      var begin, block := action.event.begin, action.event.block;
      BlockStepIs(c, s, action, env);
      BlockKeepsSound(c, s, i, begin, block);
      WrittenIsLeftOnReceipt(s.pieces[i], c.sha1, begin, block);
      MarksAccepted(c, WithBlock(c, s, i, begin, block), i, env);
    } else {
      OtherStepKeepsState(c, s, action, env, i);
    }
  }

  lemma MarksAccepted(c: Config, s: State, i: u32, env: Env)
    requires WellFormed(c, s) && PiecesSound(c, s.pieces) && i in s.pieces
    requires i in StorePiece(c, s, i, env).pieces && StorePiece(c, s, i, env).pieces[i].state.Written?
    ensures s.pieces[i].state.Written? || Accepted(c.disk, i)
  {
    StorePieceLaw(c, s, i, env);
    if s.pieces[i].state.Complete? && s.disk.Some? {
      AcceptedExactly(c.disk, s.disk.value, i, Stored(env.io, s.pieces[i].Hashed().value));
    }
  }

  /** A piece that a run marks written is one that `write_piece` accepts. */
  lemma {:induction false} WrittenIsAccepted(c: Config, s: State, steps: seq<(Action, Env)>, i: u32)
    requires WellFormed(c, s) && PiecesSound(c, s.pieces) && AllFromWire(steps) && IsRun(c, s, steps)
    requires i in s.pieces && !s.pieces[i].state.Written?
    requires i in After(c, s, steps).pieces && After(c, s, steps).pieces[i].state.Written?
    ensures Accepted(c.disk, i)
    decreases |steps|
  {
    if steps != [] {
      var before, last := steps[..|steps| - 1], steps[|steps| - 1];
      assert last == steps[|steps| - 1];
      RunKeepsPiecesSound(c, s, before);
      StepMarksAccepted(c, After(c, s, before), last.0, last.1, i);
      if After(c, s, before).pieces[i].state.Written? {
        WrittenIsAccepted(c, s, before, i);
      }
    }
  }

  // ------------------------------------------------- runs that misplace nothing

  /** Offsets of the pieces that get blocks do not wrap. */
  ghost predicate BlocksUnwrapped(c: Config, steps: seq<(Action, Env)>) {
    forall k: int, i: u32 :: 0 <= k < |steps| && For(steps[k].0, i) && i < |c.hashes| ==> Unwrapped(c.disk, i)
  }

  lemma NothingComplete(c: Config, disk: Option<Files>, i: u32)
    requires Proper(c) && i in Initial(c, disk).pieces
    ensures !Initial(c, disk).pieces[i].IsComplete()
  {
  }

  /** It is enough to look at the pieces that get blocks. */
  lemma {:induction false} BlocksDecide(c: Config, disk: Option<Files>, steps: seq<(Action, Env)>)
    requires Proper(c) && AllFromWire(steps) && WellFormed(c, Initial(c, disk)) && IsRun(c, Initial(c, disk), steps)
    requires BlocksUnwrapped(c, steps)
    ensures AllUnwrapped(c, Initial(c, disk), steps)
    decreases |steps|
  {
    if steps != [] {
      BlocksDecide(c, disk, steps[..|steps| - 1]);
      PiecesStaySound(c, disk, steps);
      InitialPiecesSound(c, disk);
      var after := After(c, Initial(c, disk), steps).pieces;
      forall i | i in after && after[i].IsComplete() ensures Unwrapped(c.disk, i) {
        NothingComplete(c, disk, i);
        if !GotBlock(steps, i) {
          CompleteGotBlock(c, Initial(c, disk), steps, i);
        }
      }
    }
  }

  /** Unless `write_piece` refuses the piece, it writes it where it belongs. */
  predicate InPlace(c: Config, i: u32) {
    i < |c.hashes| && Accepted(c.disk, i) ==> Writable(c.disk, i)
  }

  /** The pieces that receive blocks are written where they belong. */
  ghost predicate AllInPlace(c: Config, steps: seq<(Action, Env)>) {
    forall k :: 0 <= k < |steps| ==> ActionInPlace(c, steps[k].0)
  }

  predicate ActionInPlace(c: Config, action: Action) {
    action.Deliver? && action.event.ReceivedPiece? ==> InPlace(c, action.event.index)
  }

  lemma StoreKeepsShape(c: Config, s: State, i: u32, env: Env)
    requires Proper(c) && WellFormed(c, s) && PiecesSound(c, s.pieces) && i in s.pieces && InPlace(c, i)
    requires s.disk.Some? ==> HasShape(c.disk, s.disk.value)
    ensures StorePiece(c, s, i, env).disk.Some? ==> HasShape(c.disk, StorePiece(c, s, i, env).disk.value)
  {
    StorePieceLaw(c, s, i, env);
    if s.pieces[i].state.Complete? && s.disk.Some? {
      var data := Stored(env.io, s.pieces[i].Hashed().value);
      AcceptedExactly(c.disk, s.disk.value, i, data);
      if Accepted(c.disk, i) {
        WritePieceLaw(c.disk, s.disk.value, i, data);
      }
    }
  }

  lemma StepKeepsShape(c: Config, s: State, action: Action, env: Env)
    requires Proper(c) && WellFormed(c, s) && PiecesSound(c, s.pieces) && FromWire(action) && ActionInPlace(c, action)
    requires s.disk.Some? ==> HasShape(c.disk, s.disk.value)
    ensures Step(c, s, action, env).disk.Some? ==> HasShape(c.disk, Step(c, s, action, env).disk.value)
  {
    if action.Deliver? && action.event.ReceivedPiece? {
      var i := action.event.index;
      BlockStepIs(c, s, action, env);
      if i in s.pieces {
        BlockKeepsSound(c, s, i, action.event.begin, action.event.block);
        StoreKeepsShape(c, WithBlock(c, s, i, action.event.begin, action.event.block), i, env);
      }
    } else if action.Deliver? && action.event.PeerUnchoked? {
      UnchokeStepIs(c, s, action, env);
    }
  }

  /** A run that misplaces nothing leaves every file its length. */
  lemma {:induction false} RunKeepsShape(c: Config, s: State, steps: seq<(Action, Env)>)
    requires Proper(c) && WellFormed(c, s) && PiecesSound(c, s.pieces) && (s.disk.Some? ==> HasShape(c.disk, s.disk.value))
    requires AllInPlace(c, steps) && AllFromWire(steps) && IsRun(c, s, steps)
    ensures After(c, s, steps).disk.Some? ==> HasShape(c.disk, After(c, s, steps).disk.value)
    decreases |steps|
  {
    if steps != [] {
      var before, last := steps[..|steps| - 1], steps[|steps| - 1];
      assert last == steps[|steps| - 1];
      RunKeepsPiecesSound(c, s, before);
      RunKeepsShape(c, s, before);
      StepKeepsShape(c, After(c, s, before), last.0, last.1);
    }
  }

  lemma WrittenIsWritable(c: Config, disk: Option<Files>, steps: seq<(Action, Env)>, i: u32)
    requires Proper(c) && AllFromWire(steps) && WellFormed(c, Initial(c, disk)) && IsRun(c, Initial(c, disk), steps)
    requires AllInPlace(c, steps)
    requires i in After(c, Initial(c, disk), steps).pieces && After(c, Initial(c, disk), steps).pieces[i].state.Written?
    ensures Writable(c.disk, i)
  {
    InitialPiecesSound(c, disk);
    PiecesStaySound(c, disk, steps);
    NothingComplete(c, disk, i);
    WrittenIsAccepted(c, Initial(c, disk), steps, i);
    if !GotBlock(steps, i) {
      CompleteGotBlock(c, Initial(c, disk), steps, i);
    }
    var k :| 0 <= k < |steps| && For(steps[k].0, i);
    assert ActionInPlace(c, steps[k].0);
  }

  /**
   * When the pieces that get blocks are refused or writable, every written piece is on disk, and the
   * files keep their lengths.
   */
  lemma InPlaceRunIsSafe(c: Config, disk: Option<Files>, steps: seq<(Action, Env)>)
    requires Proper(c) && (disk.Some? ==> HasShape(c.disk, disk.value))
    requires AllInPlace(c, steps) && AllFromWire(steps) && WellFormed(c, Initial(c, disk)) && IsRun(c, Initial(c, disk), steps)
    ensures var after := After(c, Initial(c, disk), steps);
      && Safe(c, after)
      && (after.disk.Some? ==> HasShape(c.disk, after.disk.value))
      && forall i :: i in after.pieces && after.pieces[i].state.Written? ==>
           after.disk.Some? && OnDisk(c.disk, Image(c.disk, after.disk.value), i, after.pieces[i])
  {
    var after := After(c, Initial(c, disk), steps);
    BlocksDecide(c, disk, steps);
    EveryRunIsSafe(c, disk, steps);
    InitialPiecesSound(c, disk);
    RunKeepsShape(c, Initial(c, disk), steps);
    forall i | i in after.pieces && after.pieces[i].state.Written?
      ensures after.disk.Some? && OnDisk(c.disk, Image(c.disk, after.disk.value), i, after.pieces[i])
    {
      WrittenIsWritable(c, disk, steps, i);
    }
  }
}
