/** What runs among honest peers leave on disk. */
module Landing {
  import opened Bytes
  import opened Blocks
  import opened Pieces
  import opened PieceManagers
  import opened Disk
  import opened PieceStore
  import opened Downloads
  import opened Safety
  import opened Convergence
  import opened Completion

  /** The stretch of the content that piece i stands for. */
  function PieceContent(c: Config, content: seq<byte>, i: u32): seq<byte> {
    content[Min(At(c.disk, i), |content|)..Min(At(c.disk, i) + c.pieceLength, |content|)]
  }

  function Contents(c: Config, content: seq<byte>): u32 -> seq<byte> {
    i => PieceContent(c, content, i)
  }

  /** Every piece that lies wholly inside the content is written where it belongs. */
  predicate WholeAreWritable(c: Config, content: seq<byte>) {
    forall i: u32 :: i < |c.hashes| && At(c.disk, i) + c.pieceLength <= |content| ==> Writable(c.disk, i)
  }

  /** `order` names exactly the pieces marked written. */
  ghost predicate Lists(order: seq<u32>, pieces: PieceMap) {
    forall i :: i in order <==> i in pieces && pieces[i].state.Written?
  }

  /** The disk is the one at the start with the pieces in `order`, all marked, written one after the other. */
  ghost predicate Landed(c: Config, content: seq<byte>, was: Files, s: State, order: seq<u32>)
    requires HasShape(c.disk, was)
  {
    && Lists(order, s.pieces) && (forall i :: i in s.pieces ==> !s.pieces[i].state.Complete?)
    && AllWritable(c.disk, order, Contents(c, content))
    && s.disk == Some(WriteAll(c.disk, was, order, Contents(c, content)))
  }

  // ------------------------------------------------------------------- steps

  lemma SameStatesLanded(c: Config, content: seq<byte>, was: Files, s: State, t: State, order: seq<u32>)
    requires HasShape(c.disk, was) && Landed(c, content, was, s, order)
    requires t.disk == s.disk && t.pieces.Keys == s.pieces.Keys
    requires forall i :: i in s.pieces ==> t.pieces[i].state == s.pieces[i].state
    ensures Landed(c, content, was, t, order)
  {
    forall i ensures i in order <==> i in t.pieces && t.pieces[i].state.Written? {
      assert i in s.pieces <==> i in t.pieces;
    }
  }

  lemma FullStaysFull(p: PieceView, q: PieceView)
    requires Shaped(p) && Shaped(q) && SamePiece(p, q) && Gains(p.blocks, q.blocks) && p.FullyDownloaded()
    ensures q.FullyDownloaded()
  {
    forall o | o in q.blocks ensures q.blocks[o].IsComplete() {
      assert o in p.blocks;
    }
  }

  lemma StateIsKept(p: PieceView, q: PieceView, sha1: Hasher)
    requires Sound(p, sha1) && Sound(q, sha1) && SamePiece(p, q) && Gains(p.blocks, q.blocks)
    requires q == p || !q.state.Written?
    ensures q.state.Complete? || q.state == p.state
  {
    if p.IsComplete() {
      FullStaysFull(p, q);
    }
  }

  /** An honest block takes a piece to Complete or leaves its state, and a complete piece is content. */
  lemma StateAfterBlock(c: Config, content: seq<byte>, p: PieceView, i: u32, begin: u32, block: seq<byte>, peer: PeerIp,
                        q: PieceView)
    requires Proper(c) && Describes(c, content) && i < |c.hashes| && PieceSound(c, p, i) && |block| < U32_RANGE
    requires Genuine(content, At(c.disk, i), p.blocks)
    requires HonestAction(c, content, Deliver(ReceivedPiece(i, begin, block), peer))
    requires q == p.ReceiveBlock(c.sha1, begin, block)
    ensures q.state.Complete? || q.state == p.state
    ensures q.state.Complete? ==> WholePiece(c, content, i, q)
  {
    HonestActionIsHonestBlock(c, content, p, i, begin, block, peer);
    HashesFit(c, content, p, i);
    ReceiptGains(p, c.sha1, content, At(c.disk, i), begin, block, q);
    WrittenIsLeftOnReceipt(p, c.sha1, begin, block);
    StateIsKept(p, q, c.sha1);
    if q.state.Complete? {
      FullPieceIsContent(q, content, At(c.disk, i));
    }
  }

  ghost predicate WholePiece(c: Config, content: seq<byte>, i: u32, p: PieceView) {
    && At(c.disk, i) + c.pieceLength <= |content|
    && p.WellCut() && p.Hashed() == Some(PieceContent(c, content, i))
  }

  lemma WritableIsSome(c: Config, content: seq<byte>, files: Files, i: u32)
    requires HasShape(c.disk, files) && Writable(c.disk, i) && |PieceContent(c, content, i)| == c.disk.pieceLength
    ensures WritePiece(c.disk, files, i, PieceContent(c, content, i)).Some?
  {
    WritePieceLaw(c.disk, files, i, PieceContent(c, content, i));
  }

  lemma WrittenPieceLands(c: Config, content: seq<byte>, was: Files, s: State, i: u32, t: State, order: seq<u32>)
    requires HasShape(c.disk, was) && Landed(c, content, was, s, order) && i in s.pieces && i in t.pieces
    requires Writable(c.disk, i) && |PieceContent(c, content, i)| == c.disk.pieceLength
    requires t.disk == WritePiece(c.disk, s.disk.value, i, PieceContent(c, content, i))
    requires t.pieces.Keys == s.pieces.Keys && t.pieces[i].state.Written?
    requires forall j :: j in s.pieces && j != i ==> t.pieces[j].state == s.pieces[j].state
    ensures Landed(c, content, was, t, order + [i])
  {
    var more := order + [i];
    assert more[..|more| - 1] == order && more[|more| - 1] == i;
    forall j ensures j in more <==> j in t.pieces && t.pieces[j].state.Written? {
      assert j in s.pieces <==> j in t.pieces;
    }
    WritableIsSome(c, content, s.disk.value, i);
  }

  lemma WorkingStore(c: Config, s: State, i: u32, env: Env, data: seq<byte>)
    requires WellFormed(c, s) && PiecesSound(c, s.pieces) && i in s.pieces && s.pieces[i].state.Complete?
    requires s.disk.Some? && env.io.Works? && s.pieces[i].Hashed() == Some(data)
    requires WritePiece(c.disk, s.disk.value, i, data).Some?
    ensures var t := StorePiece(c, s, i, env);
      t.disk == WritePiece(c.disk, s.disk.value, i, data) && t.pieces == s.pieces[i := s.pieces[i].MarkWritten()]
  {
    StorePieceLaw(c, s, i, env);
  }

  lemma CompletePieceLands(c: Config, content: seq<byte>, was: Files, s: State, i: u32, q: PieceView, mid: State, env: Env,
                           order: seq<u32>)
    requires Proper(c) && WellFormed(c, mid) && PiecesSound(c, mid.pieces) && env.io.Works?
    requires HasShape(c.disk, was) && Landed(c, content, was, s, order) && i in s.pieces
    requires mid == s.(pieces := s.pieces[i := q])
    requires q.state.Complete? && Writable(c.disk, i) && WholePiece(c, content, i, q)
    ensures Landed(c, content, was, StorePiece(c, mid, i, env), order + [i])
  {
    WritableIsSome(c, content, s.disk.value, i);
    WorkingStore(c, mid, i, env, PieceContent(c, content, i));
    WrittenPieceLands(c, content, was, s, i, StorePiece(c, mid, i, env), order);
  }

  lemma OpenPieceLands(c: Config, content: seq<byte>, was: Files, s: State, i: u32, q: PieceView, mid: State, env: Env,
                       order: seq<u32>)
    requires WellFormed(c, mid) && PiecesSound(c, mid.pieces)
    requires HasShape(c.disk, was) && Landed(c, content, was, s, order) && i in s.pieces
    requires mid == s.(pieces := s.pieces[i := q])
    requires !q.state.Complete? && q.state == s.pieces[i].state
    ensures Landed(c, content, was, StorePiece(c, mid, i, env), order)
  {
    StorePieceLaw(c, mid, i, env);
    SameStatesLanded(c, content, was, s, mid, order);
  }

  lemma PieceLands(c: Config, content: seq<byte>, was: Files, s: State, i: u32, q: PieceView, env: Env, order: seq<u32>)
    returns (more: seq<u32>)
    requires Proper(c) && i in s.pieces && env.io.Works? && HasShape(c.disk, was) && Landed(c, content, was, s, order)
    requires WellFormed(c, s.(pieces := s.pieces[i := q])) && PiecesSound(c, s.pieces[i := q])
    requires q.state.Complete? || q.state == s.pieces[i].state
    requires q.state.Complete? ==> Writable(c.disk, i) && WholePiece(c, content, i, q)
    ensures Landed(c, content, was, StorePiece(c, s.(pieces := s.pieces[i := q]), i, env), more)
  {
    if q.state.Complete? {
      more := order + [i];
      CompletePieceLands(c, content, was, s, i, q, s.(pieces := s.pieces[i := q]), env, order);
    } else {
      more := order;
      OpenPieceLands(c, content, was, s, i, q, s.(pieces := s.pieces[i := q]), env, order);
    }
  }

  lemma BlockLands(c: Config, content: seq<byte>, was: Files, s: State, i: u32, begin: u32, block: seq<byte>, peer: PeerIp,
                   env: Env, order: seq<u32>, q: PieceView) returns (more: seq<u32>)
    requires Proper(c) && Describes(c, content) && WholeAreWritable(c, content)
    requires WellFormed(c, s) && Faithful(c, content, s.pieces) && |block| < U32_RANGE && env.io.Works?
    requires HonestAction(c, content, Deliver(ReceivedPiece(i, begin, block), peer))
    requires HasShape(c.disk, was) && Landed(c, content, was, s, order)
    requires i in s.pieces && q == s.pieces[i].ReceiveBlock(c.sha1, begin, block)
    requires WellFormed(c, s.(pieces := s.pieces[i := q]))
    ensures Landed(c, content, was, StorePiece(c, s.(pieces := s.pieces[i := q]), i, env), more)
  {
    FramedCastIsExact(s.pieces[i], begin, block);
    ReceiveKeepsSound(s.pieces[i], c.sha1, begin, block);
    ReplacedPieceKeepsSound(c, s.pieces, i, q);
    StateAfterBlock(c, content, s.pieces[i], i, begin, block, peer, q);
    more := PieceLands(c, content, was, s, i, q, env, order);
  }

  lemma ReceivedPieceLands(c: Config, content: seq<byte>, was: Files, s: State, i: u32, begin: u32, block: seq<byte>,
                           peer: PeerIp, env: Env, order: seq<u32>) returns (more: seq<u32>)
    requires Proper(c) && Describes(c, content) && WholeAreWritable(c, content)
    requires WellFormed(c, s) && Faithful(c, content, s.pieces) && |block| < U32_RANGE && env.io.Works?
    requires HonestAction(c, content, Deliver(ReceivedPiece(i, begin, block), peer))
    requires HasShape(c.disk, was) && Landed(c, content, was, s, order)
    ensures Landed(c, content, was, HandleReceivedPiece(c, s, i, begin, block, env), more)
  {
    more := order;
    if i in s.pieces {
      var q := s.pieces[i].ReceiveBlock(c.sha1, begin, block);
      HandledIs(c, s, i, begin, block, env, q);
      more := BlockLands(c, content, was, s, i, begin, block, peer, env, order, q);
    }
  }

  lemma StepLands(c: Config, content: seq<byte>, was: Files, s: State, action: Action, env: Env, order: seq<u32>)
    returns (more: seq<u32>)
    requires Proper(c) && Describes(c, content) && WholeAreWritable(c, content)
    requires WellFormed(c, s) && Faithful(c, content, s.pieces) && FromWire(action) && env.io.Works?
    requires HonestAction(c, content, action) && HasShape(c.disk, was) && Landed(c, content, was, s, order)
    ensures Landed(c, content, was, Step(c, s, action, env), more)
  {
    more := order;
    if IsQuiet(s, action) {
      QuietStepIs(c, s, action, env);
      SameStatesLanded(c, content, was, s, Step(c, s, action, env), order);
    } else if action.ResetTimeouts? {
      TimeoutStepIs(c, s, action, env);
      SameStatesLanded(c, content, was, s, Step(c, s, action, env), order);
    } else if action.event.PeerUnchoked? {
      UnchokeStepIs(c, s, action, env);
      UnchokeKeepsStates(s, action.peer, env);
      SameStatesLanded(c, content, was, s, HandleUnchoke(s, action.peer, env), order);
    } else {
      BlockStepIs(c, s, action, env);
      more := ReceivedPieceLands(c, content, was, s, action.event.index, action.event.begin, action.event.block,
                                 action.peer, env, order);
    }
  }

  // -------------------------------------------------------------------- runs

  /**
   * After any run among honest peers whose writes work, the disk is the one at the start with exactly
   * the pieces marked written put in place, whatever the order in which they came.
   */
  lemma {:induction false} RunLands(c: Config, content: seq<byte>, was: Files, s: State, steps: seq<(Action, Env)>,
                                    order: seq<u32>) returns (more: seq<u32>)
    requires Proper(c) && Describes(c, content) && WholeAreWritable(c, content)
    requires WellFormed(c, s) && Faithful(c, content, s.pieces)
    requires AllFromWire(steps) && AllHonest(c, content, steps) && AllWritesWork(steps) && IsRun(c, s, steps)
    requires HasShape(c.disk, was) && Landed(c, content, was, s, order)
    ensures Landed(c, content, was, After(c, s, steps), more)
    decreases |steps|
  {
    if steps == [] {
      more := order;
    } else {
      var before, last := steps[..|steps| - 1], steps[|steps| - 1];
      assert last == steps[|steps| - 1];
      HonestRunsLoseNothing(c, content, s, before);
      var mid := RunLands(c, content, was, s, before, order);
      more := StepLands(c, content, was, After(c, s, before), last.0, last.1, mid);
    }
  }

  /** The start of a run: nothing written yet. */
  lemma InitiallyLanded(c: Config, content: seq<byte>, was: Files)
    requires Proper(c) && HasShape(c.disk, was)
    ensures Landed(c, content, was, Initial(c, Some(was)), [])
  {
  }

  // ---------------------------------------------------------------- outcome

  /**
   * The image is the one at the start with the pieces in `order` put in place: byte for byte, and
   * nothing else is changed.
   */
  ghost predicate DiskIsRight(g: Geometry, was: Files, now: Files, order: seq<u32>, content: u32 -> seq<byte>)
    requires HasShape(g, was)
  {
    && HasShape(g, now)
    && EndsRight(g, Image(g, was), Image(g, now), order)
    && forall x: nat :: x < |Image(g, now)| ==> ByteIsRight(g, Image(g, was), Image(g, now), order, content, x)
  }

  lemma WritesAreRight(g: Geometry, was: Files, order: seq<u32>, content: u32 -> seq<byte>)
    requires HasShape(g, was) && AllWritable(g, order, content)
    ensures DiskIsRight(g, was, WriteAll(g, was, order, content), order, content)
  {
    var now := WriteAll(g, was, order, content);
    WritesEndRight(g, was, order, content);
    forall x: nat | x < |Image(g, now)| ensures ByteIsRight(g, Image(g, was), Image(g, now), order, content, x) {
      WritesGiveBytes(g, was, order, content, x);
    }
  }

  /** A run among honest peers, from the start, whose writes work. */
  ghost predicate WorkingRun(c: Config, content: seq<byte>, was: Files, steps: seq<(Action, Env)>) {
    && Proper(c) && Describes(c, content) && HasShape(c.disk, was) && WellFormed(c, Initial(c, Some(was)))
    && IsHonestRun(c, content, Some(was), steps) && AllWritesWork(steps)
  }

  /** The disk after the run is right for whatever list of the pieces marked written. */
  ghost predicate RunIsRight(c: Config, content: seq<byte>, was: Files, steps: seq<(Action, Env)>)
    requires WorkingRun(c, content, was, steps)
  {
    var after := After(c, Initial(c, Some(was)), steps);
    && after.disk.Some?
    && forall order :: Lists(order, after.pieces) ==>
         DiskIsRight(c.disk, was, after.disk.value, order, Contents(c, content))
  }

  lemma WorkingRunLands(c: Config, content: seq<byte>, was: Files, steps: seq<(Action, Env)>) returns (order: seq<u32>)
    requires WorkingRun(c, content, was, steps) && WholeAreWritable(c, content)
    ensures Landed(c, content, was, After(c, Initial(c, Some(was)), steps), order)
  {
    InitiallyFaithful(c, content, Some(was));
    InitiallyLanded(c, content, was);
    order := RunLands(c, content, was, Initial(c, Some(was)), steps, []);
  }

  lemma LandedIsRight(c: Config, content: seq<byte>, was: Files, s: State, order: seq<u32>, other: seq<u32>)
    requires HasShape(c.disk, was) && Landed(c, content, was, s, order) && Lists(other, s.pieces)
    ensures DiskIsRight(c.disk, was, s.disk.value, other, Contents(c, content))
  {
    WriteOrderIsIrrelevant(c.disk, was, order, other, Contents(c, content));
    WritesAreRight(c.disk, was, other, Contents(c, content));
  }

  /** When every whole piece is writable, the disk after the run is right, down to each byte. */
  lemma WorkingRunIsRight(c: Config, content: seq<byte>, was: Files, steps: seq<(Action, Env)>)
    requires WorkingRun(c, content, was, steps) && WholeAreWritable(c, content)
    ensures RunIsRight(c, content, was, steps)
  {
    var after := After(c, Initial(c, Some(was)), steps);
    var order := WorkingRunLands(c, content, was, steps);
    forall other | Lists(other, after.pieces)
      ensures DiskIsRight(c.disk, was, after.disk.value, other, Contents(c, content))
    {
      LandedIsRight(c, content, was, after, order, other);
    }
  }

  /** Piece i is marked written and its part with room on disk is the content. */
  ghost predicate PieceOnDisk(c: Config, content: seq<byte>, s: State, i: u32)
    requires At(c.disk, i) + c.pieceLength <= |content|
  {
    && i in s.pieces && s.pieces[i].state.Written? && s.disk.Some? && Opened(c.disk, s.disk.value)
    && var image := Image(c.disk, s.disk.value);
      && At(c.disk, i) <= WriteEnd(c.disk, i) <= |image| && WriteEnd(c.disk, i) <= |content|
      && image[At(c.disk, i)..WriteEnd(c.disk, i)] == content[At(c.disk, i)..WriteEnd(c.disk, i)]
  }

  lemma PrefixOfSlice(content: seq<byte>, at: nat, whole: nat, end: nat)
    requires at <= end <= whole <= |content|
    ensures content[at..whole][..end - at] == content[at..end]
  {
  }

  /** The last block that comes for piece i meets a write that works. */
  ghost predicate LastWriteWorks(steps: seq<(Action, Env)>, i: u32) {
    forall k {:trigger IsLast(steps, i, k)} :: 0 <= k < |steps| && IsLast(steps, i, k) ==> steps[k].1.io.Works?
  }

  ghost predicate IsLast(steps: seq<(Action, Env)>, i: u32, k: nat)
    requires k < |steps|
  {
    For(steps[k].0, i) && forall m :: k < m < |steps| ==> !For(steps[m].0, i)
  }

  lemma {:induction false} LastExists(steps: seq<(Action, Env)>, i: u32, k: nat) returns (last: nat)
    requires k < |steps| && For(steps[k].0, i)
    ensures last < |steps| && IsLast(steps, i, last)
    decreases |steps| - k
  {
    if m :| k < m < |steps| && For(steps[m].0, i) {
      last := LastExists(steps, i, m);
    } else {
      last := k;
    }
  }

  lemma StepKeepsDiskThere(c: Config, s: State, action: Action, env: Env)
    requires WellFormed(c, s) && s.disk.Some?
    ensures Step(c, s, action, env).disk.Some?
  {
    if action.Deliver? && action.event.ReceivedPiece? {
      BlockStepIs(c, s, action, env);
    } else if action.Deliver? && action.event.PeerUnchoked? {
      UnchokeStepIs(c, s, action, env);
    }
  }

  lemma {:induction false} RunKeepsDiskThere(c: Config, s: State, steps: seq<(Action, Env)>)
    requires WellFormed(c, s) && s.disk.Some?
    ensures After(c, s, steps).disk.Some?
    decreases |steps|
  {
    if steps != [] {
      var before, last := steps[..|steps| - 1], steps[|steps| - 1];
      RunKeepsDiskThere(c, s, before);
      StepKeepsDiskThere(c, After(c, s, before), last.0, last.1);
    }
  }

  /** After a working store no accepted piece is left complete and unmarked. */
  lemma StoreMarks(c: Config, s: State, i: u32, env: Env)
    requires WellFormed(c, s) && PiecesSound(c, s.pieces) && i in s.pieces && s.disk.Some?
    requires env.io.Works? && Accepted(c.disk, i)
    ensures i in StorePiece(c, s, i, env).pieces && !StorePiece(c, s, i, env).pieces[i].state.Complete?
  {
    StorePieceLaw(c, s, i, env);
    if s.pieces[i].state.Complete? {
      AcceptedExactly(c.disk, s.disk.value, i, s.pieces[i].Hashed().value);
    }
  }

  lemma BlockStepMarks(c: Config, s: State, action: Action, env: Env, i: u32)
    requires WellFormed(c, s) && PiecesSound(c, s.pieces) && i in s.pieces && s.disk.Some?
    requires For(action, i) && FromWire(action) && env.io.Works? && Accepted(c.disk, i)
    ensures i in Step(c, s, action, env).pieces && !Step(c, s, action, env).pieces[i].state.Complete?
  {
    BlockStepIs(c, s, action, env);
    BlockKeepsSound(c, s, i, action.event.begin, action.event.block);
    StoreMarks(c, WithBlock(c, s, i, action.event.begin, action.event.block), i, env);
  }

  lemma IsLastBefore(steps: seq<(Action, Env)>, i: u32, k: nat)
    requires k < |steps| - 1 && IsLast(steps, i, k)
    ensures IsLast(steps[..|steps| - 1], i, k) && !For(steps[|steps| - 1].0, i)
    ensures steps[..|steps| - 1][k] == steps[k]
  {
    var before := steps[..|steps| - 1];
    forall m | k < m < |before| ensures !For(before[m].0, i) {
      assert before[m] == steps[m];
    }
  }

  /** If the last block for an accepted piece meets a working write, the piece does not end as merely complete. */
  lemma {:induction false} LastBlockMarks(c: Config, s: State, steps: seq<(Action, Env)>, i: u32, k: nat)
    requires WellFormed(c, s) && PiecesSound(c, s.pieces) && i in s.pieces && s.disk.Some?
    requires AllFromWire(steps) && IsRun(c, s, steps) && Accepted(c.disk, i)
    requires k < |steps| && IsLast(steps, i, k) && steps[k].1.io.Works?
    ensures i in After(c, s, steps).pieces && !After(c, s, steps).pieces[i].state.Complete?
    decreases |steps|
  {
    var before, last := steps[..|steps| - 1], steps[|steps| - 1];
    assert last == steps[|steps| - 1];
    RunKeepsPiecesSound(c, s, before);
    RunKeepsDiskThere(c, s, before);
    var mid := After(c, s, before);
    if k == |steps| - 1 {
      BlockStepMarks(c, mid, last.0, last.1, i);
    } else {
      IsLastBefore(steps, i, k);
      LastBlockMarks(c, s, before, i, k);
      OtherStepKeepsState(c, mid, last.0, last.1, i);
    }
  }

  /** Offsets of the pieces that lie wholly inside the content do not wrap; honest peers complete no others. */
  predicate WholeUnwrapped(c: Config, content: seq<byte>) {
    forall i: u32 :: i < |c.hashes| && At(c.disk, i) + c.pieceLength <= |content| ==> Unwrapped(c.disk, i)
  }

  lemma CompleteIsWhole(c: Config, content: seq<byte>, pieces: PieceMap)
    requires Proper(c) && Faithful(c, content, pieces) && WholeUnwrapped(c, content)
    ensures CompleteUnwrapped(c, pieces)
  {
    forall i | i in pieces && pieces[i].IsComplete() ensures Unwrapped(c.disk, i) {
      FullPieceIsContent(pieces[i], content, At(c.disk, i));
    }
  }

  lemma {:induction false} HonestRunIsUnwrapped(c: Config, content: seq<byte>, s: State, steps: seq<(Action, Env)>)
    requires Proper(c) && Describes(c, content) && WellFormed(c, s) && Faithful(c, content, s.pieces)
    requires AllFromWire(steps) && AllHonest(c, content, steps) && IsRun(c, s, steps) && WholeUnwrapped(c, content)
    ensures AllUnwrapped(c, s, steps)
    decreases |steps|
  {
    if steps != [] {
      HonestRunIsUnwrapped(c, content, s, steps[..|steps| - 1]);
      HonestRunsLoseNothing(c, content, s, steps);
      CompleteIsWhole(c, content, After(c, s, steps).pieces);
    }
  }

  lemma OnDiskIsContent(c: Config, content: seq<byte>, s: State, i: u32)
    requires WellFormed(c, s) && s.disk.Some? && i in s.pieces && s.pieces[i].state.Written?
    requires At(c.disk, i) + c.pieceLength <= |content| && c.disk.pieceLength == c.pieceLength
    requires PieceIsContent(c, content, s.pieces, i)
    requires OnDisk(c.disk, Image(c.disk, s.disk.value), i, s.pieces[i])
    ensures PieceOnDisk(c, content, s, i)
  {
    PrefixOfSlice(content, At(c.disk, i), At(c.disk, i) + c.pieceLength, WriteEnd(c.disk, i));
  }

  lemma BroughtPieceIsMarked(c: Config, content: seq<byte>, was: Files, steps: seq<(Action, Env)>, i: u32, after: State)
    requires Proper(c) && Describes(c, content) && WellFormed(c, Initial(c, Some(was)))
    requires IsHonestRun(c, content, Some(was), steps) && after == After(c, Initial(c, Some(was)), steps)
    requires i < |c.hashes| && At(c.disk, i) + c.pieceLength <= |content| && Accepted(c.disk, i)
    requires PieceBrought(c, steps, i) && LastWriteWorks(steps, i)
    ensures PieceIsContent(c, content, after.pieces, i) && after.pieces[i].state.Written? && after.disk.Some?
  {
    var start := Initial(c, Some(was));
    InitiallyFaithful(c, content, Some(was));
    HonestRunsLoseNothing(c, content, start, steps);
    BroughtPieceIsComplete(c, content, start, steps, i, after.pieces);
    RunKeepsDiskThere(c, start, steps);
    assert BlockStart(c, 0);
    var k :| 0 <= k < |steps| && Brings(c, steps[k].0, i, 0);
    var last := LastExists(steps, i, k);
    LastBlockMarks(c, start, steps, i, last);
  }

  /**
   * A run among honest peers that brings every block of a writable piece, the last one with a write that
   * works, leaves the piece marked and on disk, in place, whatever happens to the other pieces.
   */
  lemma DownloadReachesDisk(c: Config, content: seq<byte>, was: Files, steps: seq<(Action, Env)>, i: u32)
    requires Proper(c) && Describes(c, content) && WellFormed(c, Initial(c, Some(was)))
    requires IsHonestRun(c, content, Some(was), steps) && WholeUnwrapped(c, content)
    requires i < |c.hashes| && At(c.disk, i) + c.pieceLength <= |content| && Writable(c.disk, i)
    requires PieceBrought(c, steps, i) && LastWriteWorks(steps, i)
    ensures PieceOnDisk(c, content, After(c, Initial(c, Some(was)), steps), i)
  {
    var start := Initial(c, Some(was));
    var after := After(c, start, steps);
    OffsetIsExact(c.disk, i);
    BroughtPieceIsMarked(c, content, was, steps, i, after);
    InitiallyFaithful(c, content, Some(was));
    HonestRunIsUnwrapped(c, content, start, steps);
    EveryRunIsSafe(c, Some(was), steps);
    OnDiskIsContent(c, content, after, i);
  }

  lemma {:induction false} PieceOf(g: Geometry, n: nat, x: nat) returns (i: nat)
    requires x < At(g, n)
    ensures i < n && InPiece(g, i, x)
  {
    if x < At(g, n - 1) {
      i := PieceOf(g, n - 1, x);
    } else {
      i := n - 1;
    }
  }

  lemma ByteOnDisk(c: Config, content: seq<byte>, s: State, i: u32, x: nat)
    requires At(c.disk, i) + c.pieceLength <= |content| && PieceOnDisk(c, content, s, i)
    requires At(c.disk, i) <= x < WriteEnd(c.disk, i)
    ensures x < |Image(c.disk, s.disk.value)| && Image(c.disk, s.disk.value)[x] == content[x]
  {
    var at, end := At(c.disk, i), WriteEnd(c.disk, i);
    assert Image(c.disk, s.disk.value)[at..end][x - at] == content[at..end][x - at];
  }

  lemma WholeByteOnDisk(c: Config, content: seq<byte>, s: State, x: nat)
    requires |content| == At(c.disk, |c.hashes|) && |c.hashes| <= U32_RANGE && c.disk.pieceLength == c.pieceLength
    requires c.disk.layout.MultiFile? ==> |content| <= c.disk.Total()
    requires forall i: u32 :: i < |c.hashes| && At(c.disk, i) + c.pieceLength <= |content| ==> PieceOnDisk(c, content, s, i)
    requires x < |content|
    ensures s.disk.Some? && Opened(c.disk, s.disk.value)
    ensures x < |Image(c.disk, s.disk.value)| && Image(c.disk, s.disk.value)[x] == content[x]
  {
    var i := PieceOf(c.disk, |c.hashes|, x);
    TimesApart(i, |c.hashes|, c.pieceLength);
    ByteOnDisk(c, content, s, i, x);
  }

  lemma WholePieceReachesDisk(c: Config, content: seq<byte>, was: Files, steps: seq<(Action, Env)>, i: u32)
    requires WorkingRun(c, content, was, steps) && WholeAreWritable(c, content) && AllBrought(c, content, steps)
    requires i < |c.hashes| && At(c.disk, i) + c.pieceLength <= |content|
    ensures PieceOnDisk(c, content, After(c, Initial(c, Some(was)), steps), i)
  {
    WholePieceIsBrought(c, content, steps, i);
    DownloadReachesDisk(c, content, was, steps, i);
  }

  /** Content that is a whole number of pieces is on disk as it is, in place, if all its pieces are writable. */
  lemma WholeDownloadReachesDisk(c: Config, content: seq<byte>, was: Files, steps: seq<(Action, Env)>)
    requires WorkingRun(c, content, was, steps) && WholeAreWritable(c, content) && AllBrought(c, content, steps)
    requires |content| == At(c.disk, |c.hashes|) && (c.disk.layout.MultiFile? ==> |content| <= c.disk.Total())
    ensures var after := After(c, Initial(c, Some(was)), steps);
      after.disk.Some? && HasShape(c.disk, after.disk.value) && content <= Image(c.disk, after.disk.value)
  {
    var after := After(c, Initial(c, Some(was)), steps);
    var order := WorkingRunLands(c, content, was, steps);
    forall i: u32 | i < |c.hashes| && At(c.disk, i) + c.pieceLength <= |content|
      ensures PieceOnDisk(c, content, after, i)
    {
      WholePieceReachesDisk(c, content, was, steps, i);
    }
    WholeByteOnDisk(c, content, after, |content| - 1);
    forall x | 0 <= x < |content| ensures Image(c.disk, after.disk.value)[x] == content[x] {
      WholeByteOnDisk(c, content, after, x);
    }
  }
}
