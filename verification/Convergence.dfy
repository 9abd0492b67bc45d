/** Runs among honest peers: blocks are only ever gained, and the download ends as it should. */
module Convergence {
  import opened Bytes
  import opened Blocks
  import opened Pieces
  import opened PieceManagers
  import opened Disk
  import opened PieceStore
  import opened Downloads
  import opened Safety

  // -------------------------------------------------------------- one piece

  /** Every received block carries the bytes of the content at its own place. */
  ghost predicate Genuine(content: seq<byte>, at: nat, blocks: BlockMap) {
    forall o :: o in blocks && blocks[o].state.Received? ==>
      |blocks[o].state.data| == blocks[o].length && HoldsAt(content, at + o, blocks[o].state.data)
  }

  lemma LastBlock(p: PieceView) returns (o: nat)
    requires Shaped(p)
    ensures o in p.blocks && o + p.blocks[o].length == p.length
  {
    o := AlignDown(p.length - 1, p.blockSize);
  }

  lemma SliceHoldsAt(content: seq<byte>, at: nat, length: nat, o: nat, data: seq<byte>)
    requires at + length <= |content| && o + |data| <= length && HoldsAt(content, at + o, data)
    ensures HoldsAt(content[at..at + length], o, data)
  {
    forall x | 0 <= x < |data| ensures content[at..at + length][o + x] == data[x] {
      assert content[at + o + x] == data[x];
    }
  }

  lemma ContentHoldsBlocks(p: PieceView, content: seq<byte>, at: nat)
    requires Shaped(p) && Filled(p.blocks) && Genuine(content, at, p.blocks) && at + p.length <= |content|
    ensures HoldsBlocks(content[at..at + p.length], p.blocks, p.length, 0)
  {
    forall o | o in p.blocks && 0 <= o ensures HoldsAt(content[at..at + p.length], o - 0, p.blocks[o].state.data) {
      SliceHoldsAt(content, at, p.length, o, p.blocks[o].state.data);
    }
  }

  /** A full piece of genuine blocks is the stretch of the content it stands for. */
  lemma FullPieceIsContent(p: PieceView, content: seq<byte>, at: nat)
    requires Shaped(p) && p.FullyDownloaded() && Genuine(content, at, p.blocks)
    ensures p.WellCut() && at + p.length <= |content| && p.Hashed() == Some(content[at..at + p.length])
  {
    FullPieceIsHashedWhole(p);
    var o := LastBlock(p);
    ContentHoldsBlocks(p, content, at);
    HeldBytesAreUnique(p.Hashed().value, content[at..at + p.length], p.blocks, p.length, p.blockSize);
  }

  /** A block of the right length at a known offset is the content there; anything else is not excluded. */
  ghost predicate HonestBlock(content: seq<byte>, at: nat, blocks: BlockMap, offset: nat, data: seq<byte>) {
    offset in blocks && |data| == blocks[offset].length ==> HoldsAt(content, at + offset, data)
  }

  predicate HashFits(content: seq<byte>, at: nat, p: PieceView, sha1: Hasher) {
    at + p.length <= |content| ==> sha1(content[at..at + p.length]) == p.hash
  }

  lemma StoreKeepsGenuine(blocks: BlockMap, content: seq<byte>, at: nat, offset: nat, data: seq<byte>)
    requires Genuine(content, at, blocks) && offset in blocks && |data| < U32_RANGE
    requires HonestBlock(content, at, blocks, offset, data)
    ensures Genuine(content, at, blocks[offset := blocks[offset].Receive(data)])
  {
    WrapOfU32(|data|);
  }

  lemma GenuinePieceVerifies(p: PieceView, sha1: Hasher, content: seq<byte>, at: nat)
    requires Shaped(p) && p.FullyDownloaded() && Genuine(content, at, p.blocks) && HashFits(content, at, p, sha1)
    ensures p.WellCut() && p.Verify(sha1).blocks == p.blocks
  {
    FullPieceIsContent(p, content, at);
  }

  /** An honest block never fails a piece: the blocks afterwards are the old ones and, if it fits, the new one. */
  lemma HonestReceipt(p: PieceView, sha1: Hasher, content: seq<byte>, at: nat, offset: nat, data: seq<byte>)
    requires Sound(p, sha1) && |data| < U32_RANGE && Genuine(content, at, p.blocks) && offset in p.blocks
    requires HonestBlock(content, at, p.blocks, offset, data) && HashFits(content, at, p, sha1)
    ensures p.ReceiveBlock(sha1, offset, data).blocks == p.Store(offset, data).blocks
    ensures Genuine(content, at, p.ReceiveBlock(sha1, offset, data).blocks)
  {
    var q := p.Store(offset, data);
    FramedCastIsExact(p, offset, data);
    StoreKeepsShaped(p, offset, data);
    StoreKeepsGenuine(p.blocks, content, at, offset, data);
    if q.FullyDownloaded() {
      GenuinePieceVerifies(q, sha1, content, at);
    }
  }

  // ------------------------------------------------------------- all pieces

  /** One hash for each piece of the content; the last piece may be short. */
  ghost predicate Describes(c: Config, content: seq<byte>) {
    && c.hashes != []
    && At(c.disk, |c.hashes| - 1) < |content| <= At(c.disk, |c.hashes|)
    && forall i: u32 :: i < |c.hashes| && At(c.disk, i) <= |content| ==>
         c.hashes[i] == c.sha1(content[At(c.disk, i)..Min(At(c.disk, i) + c.pieceLength, |content|)])
  }

  predicate BlockStart(c: Config, o: nat)
    requires 0 < c.blockSize
  {
    o < c.pieceLength && Aligned(o, c.blockSize)
  }

  function BlockEnd(c: Config, o: nat): nat
    requires o < c.pieceLength
  {
    o + Min(c.blockSize, c.pieceLength - o)
  }

  /**
   * What honest peers may send: a block that has the length the client expects at its place carries
   * the content there. Blocks of another length, at an unknown place, or of no piece are arbitrary.
   */
  predicate HonestAction(c: Config, content: seq<byte>, action: Action)
    requires 0 < c.blockSize
  {
    action.Deliver? && action.event.ReceivedPiece? && action.event.index < |c.hashes| && BlockStart(c, action.event.begin)
    && action.event.begin + |action.event.block| == BlockEnd(c, action.event.begin) ==>
      var from := At(c.disk, action.event.index) + action.event.begin;
      from + |action.event.block| <= |content| && action.event.block == content[from..from + |action.event.block|]
  }

  /** The action brings a block of the expected length for offset o of piece i. */
  predicate Brings(c: Config, action: Action, i: u32, o: nat)
    requires o < c.pieceLength
  {
    action.Deliver? && action.event.ReceivedPiece? && action.event.index == i && action.event.begin == o
    && o + |action.event.block| == BlockEnd(c, o)
  }

  predicate Has(pieces: PieceMap, i: u32, o: nat) {
    i in pieces && o in pieces[i].blocks && pieces[i].blocks[o].IsComplete()
  }

  ghost predicate NothingLost(before: PieceMap, after: PieceMap) {
    forall i, o :: Has(before, i, o) ==> Has(after, i, o)
  }

  /** Sound pieces, and every block received so far is genuine. */
  ghost predicate Faithful(c: Config, content: seq<byte>, pieces: PieceMap) {
    && PiecesSound(c, pieces)
    && forall i :: i in pieces ==> Genuine(content, At(c.disk, i), pieces[i].blocks)
  }

  lemma HashesFit(c: Config, content: seq<byte>, p: PieceView, i: u32)
    requires Proper(c) && Describes(c, content) && i < |c.hashes| && PieceSound(c, p, i)
    ensures HashFits(content, At(c.disk, i), p, c.sha1)
  {
  }

  lemma BlocksOfPiece(c: Config, p: PieceView, i: u32, o: nat)
    requires Proper(c) && i < |c.hashes| && PieceSound(c, p, i)
    ensures o in p.blocks <==> BlockStart(c, o)
    ensures o in p.blocks ==> o + p.blocks[o].length == BlockEnd(c, o)
  {
  }

  ghost predicate Gains(before: BlockMap, after: BlockMap) {
    forall o :: o in before && before[o].IsComplete() ==> o in after && after[o].IsComplete()
  }

  lemma ReplacedPieceKeepsFaith(c: Config, content: seq<byte>, pieces: PieceMap, i: u32, p: PieceView)
    requires Faithful(c, content, pieces) && i in pieces && SamePiece(pieces[i], p) && Sound(p, c.sha1)
    requires Genuine(content, At(c.disk, i), p.blocks)
    requires Gains(pieces[i].blocks, p.blocks)
    ensures Faithful(c, content, pieces[i := p]) && NothingLost(pieces, pieces[i := p])
  {
    ReplacedPieceKeepsSound(c, pieces, i, p);
  }

  lemma ReceiptGains(p: PieceView, sha1: Hasher, content: seq<byte>, at: nat, offset: nat, data: seq<byte>, q: PieceView)
    requires Sound(p, sha1) && |data| < U32_RANGE && Genuine(content, at, p.blocks)
    requires HonestBlock(content, at, p.blocks, offset, data) && HashFits(content, at, p, sha1)
    requires q == p.ReceiveBlock(sha1, offset, data)
    ensures SamePiece(p, q) && Sound(q, sha1) && Genuine(content, at, q.blocks) && Gains(p.blocks, q.blocks)
    ensures offset in p.blocks && |data| == p.blocks[offset].length ==> offset in q.blocks && q.blocks[offset].IsComplete()
  {
    FramedCastIsExact(p, offset, data);
    ReceiveKeepsSound(p, sha1, offset, data);
    if offset in p.blocks {
      HonestReceipt(p, sha1, content, at, offset, data);
    }
  }

  lemma HonestActionIsHonestBlock(c: Config, content: seq<byte>, p: PieceView, i: u32, begin: u32, block: seq<byte>, peer: PeerIp)
    requires Proper(c) && i < |c.hashes| && PieceSound(c, p, i)
    requires HonestAction(c, content, Deliver(ReceivedPiece(i, begin, block), peer))
    ensures HonestBlock(content, At(c.disk, i), p.blocks, begin, block)
  {
    BlocksOfPiece(c, p, i, begin);
    HoldsAtIsSlice(content, At(c.disk, i) + begin, block);
  }

  lemma BlockKeepsFaith(c: Config, content: seq<byte>, pieces: PieceMap, i: u32, begin: u32, block: seq<byte>, peer: PeerIp,
                        q: PieceView)
    requires Proper(c) && Describes(c, content) && Faithful(c, content, pieces) && i in pieces && |block| < U32_RANGE
    requires HonestAction(c, content, Deliver(ReceivedPiece(i, begin, block), peer))
    requires pieces[i].WellCut() && q == pieces[i].ReceiveBlock(c.sha1, begin, block)
    ensures Faithful(c, content, pieces[i := q]) && NothingLost(pieces, pieces[i := q])
    ensures BlockStart(c, begin) && begin + |block| == BlockEnd(c, begin) ==> Has(pieces[i := q], i, begin)
  {
    HonestActionIsHonestBlock(c, content, pieces[i], i, begin, block, peer);
    HashesFit(c, content, pieces[i], i);
    BlocksOfPiece(c, pieces[i], i, begin);
    ReceiptGains(pieces[i], c.sha1, content, At(c.disk, i), begin, block, q);
    ReplacedPieceKeepsFaith(c, content, pieces, i, q);
  }

  lemma MarkKeepsFaith(c: Config, content: seq<byte>, s: State, i: u32, env: Env)
    requires WellFormed(c, s) && Faithful(c, content, s.pieces) && i in s.pieces
    ensures Faithful(c, content, StorePiece(c, s, i, env).pieces)
    ensures NothingLost(s.pieces, StorePiece(c, s, i, env).pieces)
  {
    StoreMarksAtMost(c, s, i, env);
    if s.pieces[i].IsComplete() {
      MarkWrittenKeepsSound(s.pieces[i], c.sha1);
      ReplacedPieceKeepsFaith(c, content, s.pieces, i, s.pieces[i].MarkWritten());
    }
  }

  // ------------------------------------------------- after a failed check

  /** The bytes that belong to the block at offset o. */
  function BlockOf(bytes: seq<byte>, blockSize: nat, o: nat): seq<byte> {
    if o <= |bytes| then bytes[o..Min(o + blockSize, |bytes|)] else []
  }

  /** The piece after the blocks of `bytes` have come in this order of their offsets. */
  ghost function Refilled(p: PieceView, sha1: Hasher, bytes: seq<byte>, order: seq<nat>): (q: PieceView)
    requires p.WellCut()
    ensures q.WellCut()
    decreases |order|
  {
    if order == [] then p
    else
      var before, o := Refilled(p, sha1, bytes, order[..|order| - 1]), order[|order| - 1];
      ReceiveKeepsWellCut(before, sha1, o, BlockOf(bytes, p.blockSize, o));
      before.ReceiveBlock(sha1, o, BlockOf(bytes, p.blockSize, o))
  }

  /** The piece holds nothing but its share of the bytes, which have the right hash. */
  ghost predicate Clean(p: PieceView, sha1: Hasher, bytes: seq<byte>) {
    Sound(p, sha1) && Genuine(bytes, 0, p.blocks) && |bytes| == p.length && sha1(bytes) == p.hash
  }

  predicate Arrived(p: PieceView, o: nat) {
    o in p.blocks && p.blocks[o].IsComplete()
  }

  lemma BlockArrives(p: PieceView, sha1: Hasher, bytes: seq<byte>, o: nat, data: seq<byte>, q: PieceView)
    requires Clean(p, sha1, bytes) && data == BlockOf(bytes, p.blockSize, o) && q == p.ReceiveBlock(sha1, o, data)
    ensures SamePiece(p, q) && Clean(q, sha1, bytes) && Gains(p.blocks, q.blocks)
    ensures o in p.blocks ==> Arrived(q, o)
  {
    assert bytes[0..p.length] == bytes;
    HoldsAtIsSlice(bytes, o, data);
    ReceiptGains(p, sha1, bytes, 0, o, data, q);
  }

  lemma SameOffsets(p: PieceView, q: PieceView, o: nat)
    requires Shaped(p) && Shaped(q) && SamePiece(p, q)
    ensures o in q.blocks <==> o in p.blocks
  {
  }

  lemma {:induction false} RefilledGains(p: PieceView, sha1: Hasher, bytes: seq<byte>, order: seq<nat>, o: nat)
    requires Clean(p, sha1, bytes)
    ensures var q := Refilled(p, sha1, bytes, order);
      SamePiece(p, q) && Clean(q, sha1, bytes) && (o in order && o in p.blocks ==> Arrived(q, o))
    decreases |order|
  {
    if order != [] {
      var rest, last := order[..|order| - 1], order[|order| - 1];
      var mid := Refilled(p, sha1, bytes, rest);
      RefilledGains(p, sha1, bytes, rest, o);
      assert order == rest + [last];
      BlockArrives(mid, sha1, bytes, last, BlockOf(bytes, p.blockSize, last), Refilled(p, sha1, bytes, order));
      SameOffsets(p, mid, o);
    }
  }

  /** A piece with no foreign data is complete once each of its blocks has come, in any order. */
  lemma RefilledCompletes(p: PieceView, sha1: Hasher, bytes: seq<byte>, order: seq<nat>)
    requires Clean(p, sha1, bytes) && forall o :: o in p.blocks ==> o in order
    ensures var q := Refilled(p, sha1, bytes, order); q.IsComplete() && q.Hashed() == Some(bytes)
  {
    var q := Refilled(p, sha1, bytes, order);
    RefilledGains(p, sha1, bytes, order, 0);
    forall o | o in q.blocks ensures q.blocks[o].IsComplete() {
      RefilledGains(p, sha1, bytes, order, o);
      SameOffsets(p, q, o);
    }
    FullPieceIsContent(q, bytes, 0);
    assert bytes[0..p.length] == bytes;
  }

  lemma MissingIsClean(p: PieceView, sha1: Hasher, bytes: seq<byte>)
    requires Sound(p, sha1) && |bytes| == p.length && sha1(bytes) == p.hash
    requires forall o :: o in p.blocks ==> p.blocks[o].state.Missing?
    ensures Clean(p, sha1, bytes)
  {
  }

  /**
   * A failed check is not the end: whatever the piece held when the block that filled it failed the hash,
   * the right blocks, each at least once and in any order, complete it afterwards.
   */
  lemma FailedPieceRecovers(p: PieceView, sha1: Hasher, offset: nat, data: seq<byte>, bad: seq<byte>, bytes: seq<byte>,
                            order: seq<nat>, q: PieceView)
    requires Sound(p, sha1) && CastIsExact(p, offset, data) && offset in p.blocks
    requires AllArrived(WithData(p.blocks, offset, data)) && Filled(WithData(p.blocks, offset, data))
    requires HoldsBlocks(bad, WithData(p.blocks, offset, data), p.length, 0) && sha1(bad) != p.hash
    requires |bytes| == p.length && sha1(bytes) == p.hash && forall o :: o in p.blocks ==> o in order
    requires q == p.ReceiveBlock(sha1, offset, data)
    ensures q.WellCut()
    ensures Refilled(q, sha1, bytes, order).IsComplete() && Refilled(q, sha1, bytes, order).Hashed() == Some(bytes)
  {
    FillingReceiptLaw(p, sha1, offset, data, bad);
    ReceiveKeepsSound(p, sha1, offset, data);
    MissingIsClean(q, sha1, bytes);
    RefilledCompletes(q, sha1, bytes, order);
  }

  // ------------------------------------------------------------------- steps

  lemma RequestKeepsFaith(c: Config, content: seq<byte>, s: State, peer: PeerIp, env: Env)
    requires WellFormed(c, s) && Faithful(c, content, s.pieces) && PickIsOpen(s, peer, env.block)
    ensures Faithful(c, content, HandleUnchoke(s, peer, env).pieces)
    ensures NothingLost(s.pieces, HandleUnchoke(s, peer, env).pieces)
  {
    var next := NextPiece(s.pieces, Listing(s, peer));
    NextPieceIsThere(s.pieces, Listing(s, peer));
    if next.Some? && env.block in s.pieces[next.value].blocks && !s.pieces[next.value].FullyDownloaded() {
      var i := next.value;
      RequestKeepsSound(s.pieces[i], c.sha1, env.block, peer, env.now);
      ReplacedPieceKeepsFaith(c, content, s.pieces, i, s.pieces[i].Request(env.block, peer, env.now));
    }
  }

  lemma TimeoutsKeepFaith(c: Config, content: seq<byte>, pieces: PieceMap, i: u32, now: int)
    requires Faithful(c, content, pieces) && i in pieces
    ensures Faithful(c, content, pieces[i := pieces[i].ResetTimeouts(now)])
    ensures NothingLost(pieces, pieces[i := pieces[i].ResetTimeouts(now)])
  {
    ResetKeepsSound(pieces[i], c.sha1, now);
    ReplacedPieceKeepsFaith(c, content, pieces, i, pieces[i].ResetTimeouts(now));
  }

  /** The handler, with the piece after the block named. */
  lemma HandledIs(c: Config, s: State, i: u32, begin: nat, block: seq<byte>, env: Env, q: PieceView)
    requires WellFormed(c, s) && i in s.pieces && q == s.pieces[i].ReceiveBlock(c.sha1, begin, block)
    ensures WellFormed(c, s.(pieces := s.pieces[i := q]))
    ensures HandleReceivedPiece(c, s, i, begin, block, env) == StorePiece(c, s.(pieces := s.pieces[i := q]), i, env)
  {
  }

  lemma ReceivedPieceKeepsFaith(c: Config, content: seq<byte>, s: State, i: u32, begin: u32, block: seq<byte>, peer: PeerIp,
                                env: Env)
    requires Proper(c) && Describes(c, content) && WellFormed(c, s) && Faithful(c, content, s.pieces) && |block| < U32_RANGE
    requires HonestAction(c, content, Deliver(ReceivedPiece(i, begin, block), peer))
    ensures var t := HandleReceivedPiece(c, s, i, begin, block, env);
      && Faithful(c, content, t.pieces) && NothingLost(s.pieces, t.pieces)
      && (i < |c.hashes| && BlockStart(c, begin) && begin + |block| == BlockEnd(c, begin) ==> Has(t.pieces, i, begin))
  {
    if i in s.pieces {
      var q := s.pieces[i].ReceiveBlock(c.sha1, begin, block);
      BlockKeepsFaith(c, content, s.pieces, i, begin, block, peer, q);
      HandledIs(c, s, i, begin, block, env, q);
      MarkKeepsFaith(c, content, s.(pieces := s.pieces[i := q]), i, env);
    }
  }

  /** Among honest peers a step loses no block, and gains the one it brings. */
  lemma StepKeepsFaith(c: Config, content: seq<byte>, s: State, action: Action, env: Env)
    requires Proper(c) && Describes(c, content) && WellFormed(c, s) && Faithful(c, content, s.pieces)
    requires PossibleEnv(s, action, env) && FromWire(action) && HonestAction(c, content, action)
    ensures Faithful(c, content, Step(c, s, action, env).pieces)
    ensures NothingLost(s.pieces, Step(c, s, action, env).pieces)
  {
    if IsQuiet(s, action) {
      QuietStepIs(c, s, action, env);
    } else if action.ResetTimeouts? {
      TimeoutStepIs(c, s, action, env);
      TimeoutsKeepFaith(c, content, s.pieces, action.index, env.now);
    } else if action.event.PeerUnchoked? {
      UnchokeStepIs(c, s, action, env);
      RequestKeepsFaith(c, content, s, action.peer, env);
    } else {
      BlockStepIs(c, s, action, env);
      ReceivedPieceKeepsFaith(c, content, s, action.event.index, action.event.begin, action.event.block, action.peer, env);
    }
  }

  lemma StepBrings(c: Config, content: seq<byte>, s: State, action: Action, env: Env, i: u32, o: nat)
    requires Proper(c) && Describes(c, content) && WellFormed(c, s) && Faithful(c, content, s.pieces)
    requires FromWire(action) && HonestAction(c, content, action)
    requires i < |c.hashes| && BlockStart(c, o) && Brings(c, action, i, o)
    ensures Has(Step(c, s, action, env).pieces, i, o)
  {
    BlockStepIs(c, s, action, env);
    ReceivedPieceKeepsFaith(c, content, s, i, action.event.begin, action.event.block, action.peer, env);
  }

  // -------------------------------------------------------------------- runs

  ghost predicate AllHonest(c: Config, content: seq<byte>, steps: seq<(Action, Env)>)
    requires 0 < c.blockSize
  {
    forall k :: 0 <= k < |steps| ==> HonestAction(c, content, steps[k].0)
  }

  /** In a run among honest peers no block is ever lost. */
  lemma {:induction false} HonestRunsLoseNothing(c: Config, content: seq<byte>, s: State, steps: seq<(Action, Env)>)
    requires Proper(c) && Describes(c, content) && WellFormed(c, s) && Faithful(c, content, s.pieces)
    requires AllFromWire(steps) && AllHonest(c, content, steps) && IsRun(c, s, steps)
    ensures Faithful(c, content, After(c, s, steps).pieces)
    ensures NothingLost(s.pieces, After(c, s, steps).pieces)
    decreases |steps|
  {
    if steps != [] {
      var before, last := steps[..|steps| - 1], steps[|steps| - 1];
      assert last == steps[|steps| - 1];
      HonestRunsLoseNothing(c, content, s, before);
      StepKeepsFaith(c, content, After(c, s, before), last.0, last.1);
    }
  }

  lemma CompleteByBlocks(c: Config, pieces: PieceMap, i: u32)
    requires Proper(c) && PiecesSound(c, pieces) && i in pieces
    ensures pieces[i].IsComplete() <==> forall o :: BlockStart(c, o) ==> Has(pieces, i, o)
  {
    forall o: nat ensures o in pieces[i].blocks <==> BlockStart(c, o) {
      BlocksOfPiece(c, pieces[i], i, o);
    }
  }

  /** Completeness never goes back to false among honest peers. */
  lemma CompleteStaysComplete(c: Config, content: seq<byte>, s: State, steps: seq<(Action, Env)>, i: u32)
    requires Proper(c) && Describes(c, content) && WellFormed(c, s) && Faithful(c, content, s.pieces)
    requires AllFromWire(steps) && AllHonest(c, content, steps) && IsRun(c, s, steps)
    requires i in s.pieces && s.pieces[i].IsComplete()
    ensures i in After(c, s, steps).pieces && After(c, s, steps).pieces[i].IsComplete()
  {
    HonestRunsLoseNothing(c, content, s, steps);
    var after := After(c, s, steps).pieces;
    CompleteByBlocks(c, s.pieces, i);
    assert Has(s.pieces, i, 0);
    CompleteByBlocks(c, after, i);
  }

  /** A block that was brought at some step is there at the end of the run. */
  lemma {:induction false} BroughtIsKept(c: Config, content: seq<byte>, s: State, steps: seq<(Action, Env)>, k: nat,
                                         i: u32, o: nat)
    requires Proper(c) && Describes(c, content) && WellFormed(c, s) && Faithful(c, content, s.pieces)
    requires AllFromWire(steps) && AllHonest(c, content, steps) && IsRun(c, s, steps)
    requires i < |c.hashes| && BlockStart(c, o) && k < |steps| && Brings(c, steps[k].0, i, o)
    ensures Has(After(c, s, steps).pieces, i, o)
    decreases |steps|
  {
    var before, last := steps[..|steps| - 1], steps[|steps| - 1];
    assert last == steps[|steps| - 1];
    HonestRunsLoseNothing(c, content, s, before);
    var mid := After(c, s, before);
    if k == |steps| - 1 {
      StepBrings(c, content, mid, last.0, last.1, i, o);
    } else {
      BroughtIsKept(c, content, s, before, k, i, o);
      StepKeepsFaith(c, content, mid, last.0, last.1);
    }
  }

  /** Every block that lies inside the content is brought at least once, in any order. */
  ghost predicate AllBrought(c: Config, content: seq<byte>, steps: seq<(Action, Env)>)
    requires 0 < c.blockSize
  {
    forall i: u32, o: nat :: i < |c.hashes| && BlockStart(c, o) && At(c.disk, i) + BlockEnd(c, o) <= |content| ==>
      exists k :: 0 <= k < |steps| && Brings(c, steps[k].0, i, o)
  }

  lemma HeldIsInside(c: Config, content: seq<byte>, pieces: PieceMap, i: u32, o: nat)
    requires Proper(c) && Faithful(c, content, pieces) && Has(pieces, i, o)
    ensures o < c.pieceLength && At(c.disk, i) + BlockEnd(c, o) <= |content|
  {
    BlocksOfPiece(c, pieces[i], i, o);
  }

  /** The full length given to every piece is what a short last piece never reaches. */
  lemma CompleteLastPieceIsFull(c: Config, content: seq<byte>, pieces: PieceMap)
    requires Proper(c) && Describes(c, content) && Faithful(c, content, pieces) && AllComplete(pieces)
    ensures |content| == At(c.disk, |c.hashes|)
  {
    var i: u32 := |c.hashes| - 1;
    var o := LastBlock(pieces[i]);
    HeldIsInside(c, content, pieces, i, o);
    BlocksOfPiece(c, pieces[i], i, o);
  }

  /** Piece i is complete and its bytes are the content's. */
  ghost predicate PieceIsContent(c: Config, content: seq<byte>, pieces: PieceMap, i: u32)
    requires At(c.disk, i) + c.pieceLength <= |content|
  {
    && i in pieces && pieces[i].WellCut() && pieces[i].IsComplete()
    && pieces[i].Hashed() == Some(content[At(c.disk, i)..At(c.disk, i) + c.pieceLength])
  }

  lemma HeldPieceIsContent(c: Config, content: seq<byte>, pieces: PieceMap, i: u32)
    requires Proper(c) && Faithful(c, content, pieces) && i in pieces && At(c.disk, i) + c.pieceLength <= |content|
    requires forall o :: BlockStart(c, o) ==> Has(pieces, i, o)
    ensures PieceIsContent(c, content, pieces, i)
  {
    CompleteByBlocks(c, pieces, i);
    FullPieceIsContent(pieces[i], content, At(c.disk, i));
  }

  /** Every block of piece i is brought at least once. */
  ghost predicate PieceBrought(c: Config, steps: seq<(Action, Env)>, i: u32)
    requires 0 < c.blockSize
  {
    forall o: nat :: BlockStart(c, o) ==> exists k :: 0 <= k < |steps| && Brings(c, steps[k].0, i, o)
  }

  lemma WholePieceIsBrought(c: Config, content: seq<byte>, steps: seq<(Action, Env)>, i: u32)
    requires 0 < c.blockSize && AllBrought(c, content, steps)
    requires i < |c.hashes| && At(c.disk, i) + c.pieceLength <= |content|
    ensures PieceBrought(c, steps, i)
  {
    forall o: nat | BlockStart(c, o) ensures exists k :: 0 <= k < |steps| && Brings(c, steps[k].0, i, o) {
      assert At(c.disk, i) + BlockEnd(c, o) <= |content|;
    }
  }

  lemma BlockIsThere(c: Config, content: seq<byte>, s: State, steps: seq<(Action, Env)>, i: u32, o: nat, after: PieceMap)
    requires Proper(c) && Describes(c, content) && WellFormed(c, s) && Faithful(c, content, s.pieces)
    requires AllFromWire(steps) && AllHonest(c, content, steps) && IsRun(c, s, steps) && PieceBrought(c, steps, i)
    requires i < |c.hashes| && BlockStart(c, o)
    requires after == After(c, s, steps).pieces
    ensures Has(after, i, o)
  {
    var k :| 0 <= k < |steps| && Brings(c, steps[k].0, i, o);
    BroughtIsKept(c, content, s, steps, k, i, o);
  }

  lemma BroughtPieceIsComplete(c: Config, content: seq<byte>, s: State, steps: seq<(Action, Env)>, i: u32, after: PieceMap)
    requires Proper(c) && Describes(c, content) && WellFormed(c, s) && Faithful(c, content, s.pieces)
    requires AllFromWire(steps) && AllHonest(c, content, steps) && IsRun(c, s, steps) && PieceBrought(c, steps, i)
    requires i < |c.hashes| && At(c.disk, i) + c.pieceLength <= |content|
    requires after == After(c, s, steps).pieces && Faithful(c, content, after)
    ensures PieceIsContent(c, content, after, i)
  {
    forall o | BlockStart(c, o) ensures Has(after, i, o) {
      BlockIsThere(c, content, s, steps, i, o, after);
    }
    HeldPieceIsContent(c, content, after, i);
  }

  ghost predicate WholePiecesAreContent(c: Config, content: seq<byte>, pieces: PieceMap) {
    forall i: u32 :: i < |c.hashes| && At(c.disk, i) + c.pieceLength <= |content| ==> PieceIsContent(c, content, pieces, i)
  }

  lemma CompleteIfWhole(c: Config, content: seq<byte>, pieces: PieceMap, i: u32)
    requires Proper(c) && PiecesSound(c, pieces) && WholePiecesAreContent(c, content, pieces)
    requires |content| == At(c.disk, |c.hashes|) && i in pieces
    ensures pieces[i].IsComplete()
  {
    TimesApart(i, |c.hashes|, c.pieceLength);
    assert PieceIsContent(c, content, pieces, i);
  }

  lemma CompleteIffWhole(c: Config, content: seq<byte>, pieces: PieceMap)
    requires Proper(c) && Describes(c, content) && Faithful(c, content, pieces) && WholePiecesAreContent(c, content, pieces)
    ensures AllComplete(pieces) <==> |content| == At(c.disk, |c.hashes|)
  {
    if AllComplete(pieces) {
      CompleteLastPieceIsFull(c, content, pieces);
    } else if |content| == At(c.disk, |c.hashes|) {
      forall i | i in pieces ensures pieces[i].IsComplete() {
        CompleteIfWhole(c, content, pieces, i);
      }
    }
  }

  lemma HonestRunConverges(c: Config, content: seq<byte>, s: State, steps: seq<(Action, Env)>, after: PieceMap)
    requires Proper(c) && Describes(c, content) && WellFormed(c, s) && Faithful(c, content, s.pieces)
    requires AllFromWire(steps) && AllHonest(c, content, steps) && AllBrought(c, content, steps) && IsRun(c, s, steps)
    requires after == After(c, s, steps).pieces
    ensures AllComplete(after) <==> |content| == At(c.disk, |c.hashes|)
    ensures WholePiecesAreContent(c, content, after)
  {
    HonestRunsLoseNothing(c, content, s, steps);
    forall i: u32 | i < |c.hashes| && At(c.disk, i) + c.pieceLength <= |content|
      ensures PieceIsContent(c, content, after, i)
    {
      WholePieceIsBrought(c, content, steps, i);
      BroughtPieceIsComplete(c, content, s, steps, i, after);
    }
    CompleteIffWhole(c, content, after);
  }

  lemma InitiallyFaithful(c: Config, content: seq<byte>, disk: Option<Files>)
    requires Proper(c)
    ensures Faithful(c, content, Initial(c, disk).pieces)
  {
    InitialPiecesSound(c, disk);
  }

  /**
   * Convergence and order independence. Among honest peers any run that brings every block, in any
   * order, with duplicates, useless blocks, requests and timeouts in between, completes every piece
   * that lies wholly inside the content with the bytes of the content; and the download as a whole
   * is complete exactly when the content is a whole number of pieces.
   */
  lemma DownloadConverges(c: Config, content: seq<byte>, disk: Option<Files>, steps: seq<(Action, Env)>)
    requires Proper(c) && Describes(c, content) && WellFormed(c, Initial(c, disk))
    requires AllFromWire(steps) && AllHonest(c, content, steps) && AllBrought(c, content, steps)
    requires IsRun(c, Initial(c, disk), steps)
    ensures var after := After(c, Initial(c, disk), steps).pieces;
      WholePiecesAreContent(c, content, after) && (AllComplete(after) <==> |content| == At(c.disk, |c.hashes|))
  {
    InitiallyFaithful(c, content, disk);
    HonestRunConverges(c, content, Initial(c, disk), steps, After(c, Initial(c, disk), steps).pieces);
  }
}
