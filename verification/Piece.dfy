/** Pieces (src/core/peer/piece/piece.rs): a hashed run of bytes, tiled by blocks. */
module Pieces {
  import opened Bytes
  import opened Blocks

  type Digest = d: seq<byte> | |d| == 20 witness seq(20, _ => 0)

  /** SHA-1 stays uninterpreted: every statement holds for any such function. */
  type Hasher = seq<byte> -> Digest

  datatype PieceState = Missing | Incomplete | Complete | Written

  type BlockMap = map<nat, BlockView>

  // ---------------------------------------------------------------- tiling

  /** The length of the block cut at `offset`, with the cast of the remainder to u32. */
  function BlockLength(length: nat, blockSize: nat, offset: nat): nat
    requires offset < length
  {
    Min(blockSize, Wrap32(length - offset))
  }

  /** Where the cutting loop stands after n turns. */
  function OffsetAfter(length: nat, blockSize: nat, n: nat): nat {
    if n == 0 then 0 else
      var offset := OffsetAfter(length, blockSize, n - 1);
      if offset < length then offset + BlockLength(length, blockSize, offset) else offset
  }

  ghost predicate CuttingStops(length: nat, blockSize: nat) {
    exists n: nat :: OffsetAfter(length, blockSize, n) >= length
  }

  predicate CanBeCut(length: nat, blockSize: nat) {
    length == 0 || (0 < blockSize && length < U32_RANGE)
  }

  lemma {:induction false} OffsetAdvances(length: nat, blockSize: nat, n: nat)
    requires 0 < blockSize && length < U32_RANGE
    ensures OffsetAfter(length, blockSize, n) >= Min(n, length)
  {
    if n > 0 {
      OffsetAdvances(length, blockSize, n - 1);
    }
  }

  lemma {:induction false} OffsetIsStuck(length: nat, blockSize: nat, n: nat)
    requires 0 < length && (blockSize == 0 || U32_RANGE <= length)
    ensures OffsetAfter(length, blockSize, n) < length
    ensures 0 < blockSize ==> OffsetAfter(length, blockSize, n) + U32_RANGE <= length
  {
    if n > 0 {
      OffsetIsStuck(length, blockSize, n - 1);
    }
  }

  /** The loop that cuts a piece into blocks ends exactly for these arguments. */
  lemma CuttingStopsExactly(length: nat, blockSize: nat)
    ensures CuttingStops(length, blockSize) <==> CanBeCut(length, blockSize)
  {
    if CanBeCut(length, blockSize) {
      if 0 < length {
        OffsetAdvances(length, blockSize, length);
      }
      assert OffsetAfter(length, blockSize, length) >= length;
    } else {
      forall n: nat ensures OffsetAfter(length, blockSize, n) < length {
        OffsetIsStuck(length, blockSize, n);
      }
    }
  }

  function NewBlocks(index: nat, length: nat, blockSize: nat): BlockMap
    requires CanBeCut(length, blockSize)
  {
    map o: nat | 0 <= o < length && Aligned(o, blockSize) ::
      BlockView(index, o, Min(blockSize, length - o), BlockState.Missing)
  }

  /** The blocks of a new piece stand at the multiples of the block size below the length, all missing. */
  lemma BlocksStandAtMultiples(index: nat, length: nat, blockSize: nat, o: nat)
    requires CanBeCut(length, blockSize) && 0 < blockSize
    ensures o in NewBlocks(index, length, blockSize) <==> o < length && o % blockSize == 0
    ensures o in NewBlocks(index, length, blockSize) ==>
      NewBlocks(index, length, blockSize)[o] == BlockView(index, o, Min(blockSize, length - o), BlockState.Missing)
  {
    AlignedIsMultiple(o, blockSize);
  }

  /** Offsets, lengths and block size of a piece, whatever the state of its blocks. */
  ghost predicate Tiled(blocks: BlockMap, length: nat, blockSize: nat) {
    && 0 < blockSize
    && (forall o {:trigger o in blocks} :: o in blocks <==> 0 <= o < length && Aligned(o, blockSize))
    && (forall o :: o in blocks ==>
          blocks[o].offset == o && blocks[o].length == Min(blockSize, length - o))
  }

  predicate Covers(blocks: BlockMap, o: nat, x: nat)
    requires o in blocks
  {
    o <= x < o + blocks[o].length
  }

  lemma TileAt(blocks: BlockMap, length: nat, blockSize: nat, x: nat) returns (o: nat)
    requires Tiled(blocks, length, blockSize) && x < length
    ensures o in blocks && Covers(blocks, o, x)
  {
    o := AlignDown(x, blockSize);
  }

  lemma TilesAreDisjoint(blocks: BlockMap, length: nat, blockSize: nat, o: nat, o': nat, x: nat)
    requires Tiled(blocks, length, blockSize) && o in blocks && o' in blocks
    requires Covers(blocks, o, x) && Covers(blocks, o', x)
    ensures o == o'
  {
    if o < o' {
      AlignedAreApart(o, o', blockSize);
    } else if o' < o {
      AlignedAreApart(o', o, blockSize);
    }
  }

  /** Blocks are disjoint and cover the piece: each byte lies in exactly one of them. */
  lemma TilesPartitionThePiece(blocks: BlockMap, length: nat, blockSize: nat, x: nat)
    requires Tiled(blocks, length, blockSize)
    ensures x < length <==> exists o :: o in blocks && Covers(blocks, o, x)
    ensures forall o, o' :: o in blocks && o' in blocks && Covers(blocks, o, x) && Covers(blocks, o', x) ==> o == o'
  {
    if x < length {
      var o := TileAt(blocks, length, blockSize, x);
    }
    forall o, o' | o in blocks && o' in blocks && Covers(blocks, o, x) && Covers(blocks, o', x) ensures o == o' {
      TilesAreDisjoint(blocks, length, blockSize, o, o', x);
    }
  }

  /** Only the last block may be short. */
  lemma ShortTileIsLast(blocks: BlockMap, length: nat, blockSize: nat, o: nat)
    requires Tiled(blocks, length, blockSize) && o in blocks
    requires blocks[o].length < blockSize
    ensures o + blocks[o].length == length && forall o' :: o' in blocks ==> o' <= o
  {
    forall o' | o' in blocks ensures o' <= o {
      if o < o' { AlignedAreApart(o, o', blockSize); }
    }
  }

  // ------------------------------------------------------- joining the blocks

  function Prepend(head: seq<byte>, tail: Option<seq<byte>>): Option<seq<byte>> {
    if tail.Some? then Some(head + tail.value) else None
  }

  lemma PrependIsAssociative(a: seq<byte>, b: seq<byte>, tail: Option<seq<byte>>)
    ensures Prepend(a, Prepend(b, tail)) == Prepend(a + b, tail)
  {
    if tail.Some? {
      assert a + (b + tail.value) == (a + b) + tail.value;
    }
  }

  lemma PrependNothing(tail: Option<seq<byte>>)
    ensures Prepend([], tail) == tail
  {
    if tail.Some? {
      assert [] + tail.value == tail.value;
    }
  }

  /** Received data met when walking from `offset` in steps of the block size. */
  function JoinByStride(blocks: BlockMap, length: nat, blockSize: nat, offset: nat): Option<seq<byte>>
    requires 0 < blockSize || length == 0
    decreases length - offset
  {
    if offset >= length then Some([])
    else if offset in blocks && blocks[offset].state.Received? then
      Prepend(blocks[offset].state.data, JoinByStride(blocks, length, blockSize, offset + blockSize))
    else None
  }

  /** Received data met when walking from `offset` in steps of each block's own length. */
  function JoinByLength(blocks: BlockMap, length: nat, offset: nat): Option<seq<byte>>
    requires forall o :: o in blocks ==> 0 < blocks[o].length
    decreases length - offset
  {
    if offset >= length then Some([])
    else if offset in blocks && blocks[offset].state.Received? then
      Prepend(blocks[offset].state.data, JoinByLength(blocks, length, offset + blocks[offset].length))
    else None
  }

  /** Every block holds data of its own length. */
  ghost predicate Filled(blocks: BlockMap) {
    forall o :: o in blocks ==> blocks[o].state.Received? && |blocks[o].state.data| == blocks[o].length
  }

  /** `data` stands in `bytes` from place `at` on. Said byte by byte: slices from 0 make proofs diverge. */
  ghost predicate HoldsAt(bytes: seq<byte>, at: nat, data: seq<byte>) {
    at + |data| <= |bytes| && forall x :: 0 <= x < |data| ==> bytes[at + x] == data[x]
  }

  lemma HoldsAtIsSlice(bytes: seq<byte>, at: nat, data: seq<byte>)
    ensures HoldsAt(bytes, at, data) <==> at + |data| <= |bytes| && bytes[at..at + |data|] == data
  {
    if at + |data| <= |bytes| && bytes[at..at + |data|] == data {
      forall x | 0 <= x < |data| ensures bytes[at + x] == data[x] {
        assert bytes[at..at + |data|][x] == data[x];
      }
    }
  }

  /** `bytes` is the piece from `offset` on: each block's data stands at that block's place. */
  ghost predicate HoldsBlocks(bytes: seq<byte>, blocks: BlockMap, length: nat, offset: nat)
    requires Filled(blocks)
  {
    && |bytes| == length - offset
    && forall o :: o in blocks && offset <= o ==> HoldsAt(bytes, o - offset, blocks[o].state.data)
  }

  lemma TilesFollow(blocks: BlockMap, length: nat, blockSize: nat, offset: nat)
    requires Tiled(blocks, length, blockSize) && offset in blocks
    ensures forall o :: o in blocks && offset < o ==> offset + blockSize <= o
    ensures offset + blockSize < length ==> offset + blockSize in blocks
    ensures offset + blockSize >= length ==> offset + blocks[offset].length == length
  {
    forall o | o in blocks && offset < o ensures offset + blockSize <= o {
      AlignedAreApart(offset, o, blockSize);
    }
  }

  lemma TailHoldsAt(data: seq<byte>, tail: seq<byte>, at: nat, part: seq<byte>)
    requires HoldsAt(tail, at, part)
    ensures HoldsAt(data + tail, |data| + at, part)
  {
    forall x | 0 <= x < |part| ensures (data + tail)[|data| + at + x] == part[x] {
      assert tail[at + x] == part[x];
    }
  }

  lemma HeldTailExtends(tail: seq<byte>, blocks: BlockMap, length: nat, offset: nat, next: nat)
    requires Filled(blocks) && offset in blocks && next == offset + blocks[offset].length <= length
    requires HoldsBlocks(tail, blocks, length, next)
    requires forall o :: o in blocks && offset < o ==> next <= o
    ensures HoldsBlocks(blocks[offset].state.data + tail, blocks, length, offset)
  {
    var data := blocks[offset].state.data;
    assert HoldsAt(data + tail, 0, data);
    forall o | o in blocks && offset < o ensures HoldsAt(data + tail, o - offset, blocks[o].state.data) {
      TailHoldsAt(data, tail, o - next, blocks[o].state.data);
    }
  }

  lemma LastDataHoldsBlocks(blocks: BlockMap, length: nat, offset: nat)
    requires Filled(blocks) && offset in blocks && offset + blocks[offset].length == length
    requires forall o :: o in blocks ==> o <= offset
    ensures HoldsBlocks(blocks[offset].state.data, blocks, length, offset)
  {
  }

  lemma LastJoinHoldsBlocks(blocks: BlockMap, length: nat, blockSize: nat, offset: nat)
    requires Tiled(blocks, length, blockSize) && Filled(blocks)
    requires offset in blocks && length <= offset + blockSize
    ensures JoinByStride(blocks, length, blockSize, offset) == Some(blocks[offset].state.data)
    ensures HoldsBlocks(blocks[offset].state.data, blocks, length, offset)
  {
    TilesFollow(blocks, length, blockSize, offset);
    LastDataHoldsBlocks(blocks, length, offset);
    assert blocks[offset].state.data + [] == blocks[offset].state.data;
  }

  ghost predicate JoinsAndHolds(joined: Option<seq<byte>>, blocks: BlockMap, length: nat, offset: nat)
    requires Filled(blocks)
  {
    joined.Some? && HoldsBlocks(joined.value, blocks, length, offset)
  }

  lemma {:induction false} StrideJoinHoldsBlocks(blocks: BlockMap, length: nat, blockSize: nat, offset: nat)
    requires Tiled(blocks, length, blockSize) && Filled(blocks)
    requires offset in blocks
    ensures JoinsAndHolds(JoinByStride(blocks, length, blockSize, offset), blocks, length, offset)
    decreases length - offset
  {
    var next := offset + blockSize;
    if next < length {
      TilesFollow(blocks, length, blockSize, offset);
      StrideJoinHoldsBlocks(blocks, length, blockSize, next);
      HeldTailExtends(JoinByStride(blocks, length, blockSize, next).value, blocks, length, offset, next);
    } else {
      LastJoinHoldsBlocks(blocks, length, blockSize, offset);
    }
  }

  /** Both walks visit the same blocks: what is hashed is what is handed out for writing. */
  lemma {:induction false} LengthJoinIsStrideJoin(blocks: BlockMap, length: nat, blockSize: nat, offset: nat)
    requires Tiled(blocks, length, blockSize)
    requires offset in blocks || offset >= length
    ensures JoinByLength(blocks, length, offset) == JoinByStride(blocks, length, blockSize, offset)
    decreases length - offset
  {
    if offset < length {
      TilesFollow(blocks, length, blockSize, offset);
      LengthJoinIsStrideJoin(blocks, length, blockSize, offset + blockSize);
    }
  }

  /** The bytes of a filled piece are determined by its blocks. */
  lemma HeldBytesAreUnique(a: seq<byte>, b: seq<byte>, blocks: BlockMap, length: nat, blockSize: nat)
    requires Tiled(blocks, length, blockSize) && Filled(blocks)
    requires HoldsBlocks(a, blocks, length, 0) && HoldsBlocks(b, blocks, length, 0)
    ensures a == b
  {
    forall x | 0 <= x < length ensures a[x] == b[x] {
      var o := TileAt(blocks, length, blockSize, x);
      var data := blocks[o].state.data;
      assert HoldsAt(a, o, data) && HoldsAt(b, o, data);
      assert a[o + (x - o)] == data[x - o] == b[o + (x - o)];
    }
  }

  // ------------------------------------------------------------ the piece

  /** The value of a piece, with each operation as a function on it. */
  datatype PieceView = PieceView(
    index: nat,
    length: nat,
    hash: Digest,
    blockSize: nat,
    blocks: BlockMap,
    state: PieceState)
  {
    /** What the walks over the blocks need in order to end. */
    ghost predicate WellCut() {
      && CanBeCut(length, blockSize)
      && forall o :: o in blocks ==> 0 < blocks[o].length
    }

    ghost predicate FullyDownloaded() {
      forall o :: o in blocks ==> blocks[o].IsComplete()
    }

    predicate IsComplete() {
      state.Complete? || state.Written?
    }

    predicate IsNeeded() {
      state.Missing? || state.Incomplete?
    }

    function Request(offset: nat, peer: PeerIp, now: int): PieceView {
      if offset in blocks then this.(blocks := blocks[offset := blocks[offset].Request(peer, now)]) else this
    }

    function Hashed(): Option<seq<byte>>
      requires WellCut()
    {
      JoinByStride(blocks, length, blockSize, 0)
    }

    predicate Verifies(sha1: Hasher)
      requires WellCut()
    {
      Hashed().Some? && sha1(Hashed().value) == hash
    }

    function Verify(sha1: Hasher): PieceView
      requires WellCut()
    {
      if Hashed().None? then this
      else if sha1(Hashed().value) == hash then this.(state := Complete)
      else this.(blocks := map o | o in blocks :: blocks[o].Cancel(), state := PieceState.Missing)
    }

    function Store(offset: nat, data: seq<byte>): PieceView
      requires offset in blocks
    {
      this.(blocks := blocks[offset := blocks[offset].Receive(data)])
    }

    ghost function ReceiveBlock(sha1: Hasher, offset: nat, data: seq<byte>): PieceView
      requires WellCut()
    {
      if offset !in blocks then this
      else if Store(offset, data).FullyDownloaded() then Store(offset, data).Verify(sha1)
      else Store(offset, data)
    }

    function MarkWritten(): PieceView {
      this.(state := PieceState.Written)
    }

    function ResetTimeouts(now: int): PieceView {
      this.(blocks := map o | o in blocks :: blocks[o].Reset(now))
    }

    function Data(): Option<seq<byte>>
      requires WellCut()
    {
      if state.Complete? then JoinByLength(blocks, length, 0) else None
    }
  }

  function NewPiece(index: nat, length: nat, hash: Digest, blockSize: nat): PieceView
    requires CanBeCut(length, blockSize)
  {
    PieceView(index, length, hash, blockSize, NewBlocks(index, length, blockSize), PieceState.Missing)
  }

  // ------------------------------------------------------- piece invariant

  /** The blocks tile the piece and each received block has its own length. */
  ghost predicate Shaped(p: PieceView) {
    && 0 < p.length < U32_RANGE
    && Tiled(p.blocks, p.length, p.blockSize)
    && (forall o :: o in p.blocks && p.blocks[o].state.Received? ==> |p.blocks[o].state.data| == p.blocks[o].length)
    && (forall o :: o in p.blocks ==> !p.blocks[o].state.Written?)
  }

  /** What holds of every piece of non-zero length in every reachable state. */
  ghost predicate Sound(p: PieceView, sha1: Hasher) {
    && Shaped(p)
    && p.WellCut()
    && !p.state.Incomplete?
    && (p.IsComplete() <==> p.FullyDownloaded())
    && (p.IsComplete() ==> p.Verifies(sha1))
  }

  predicate SamePiece(p: PieceView, q: PieceView) {
    p.index == q.index && p.length == q.length && p.hash == q.hash && p.blockSize == q.blockSize
  }

  /**
   * The hashed bytes exist, fill the piece exactly, hold each block at its offset, and are the
   * bytes handed out for writing: `verify` never gives up early on a fully downloaded piece.
   */
  lemma FullPieceIsHashedWhole(p: PieceView)
    requires Shaped(p) && p.FullyDownloaded()
    ensures p.WellCut() && Filled(p.blocks)
    ensures p.Hashed().Some? && HoldsBlocks(p.Hashed().value, p.blocks, p.length, 0)
    ensures JoinByLength(p.blocks, p.length, 0) == p.Hashed()
    ensures p.state.Complete? ==> p.Data() == p.Hashed()
  {
    assert 0 in p.blocks;
    StrideJoinHoldsBlocks(p.blocks, p.length, p.blockSize, 0);
    LengthJoinIsStrideJoin(p.blocks, p.length, p.blockSize, 0);
  }

  lemma NewPieceIsSound(index: nat, length: nat, hash: Digest, blockSize: nat, sha1: Hasher)
    requires 0 < length < U32_RANGE && 0 < blockSize
    ensures Sound(NewPiece(index, length, hash, blockSize), sha1)
  {
    assert 0 in NewBlocks(index, length, blockSize);
  }

  /**
   * The restriction to non-zero lengths is exact: a new piece is full exactly when it is complete, unless
   * it is empty, when it is full from the start and yet not complete.
   */
  lemma NewPieceAgreesExactly(index: nat, length: nat, hash: Digest, blockSize: nat)
    requires CanBeCut(length, blockSize)
    ensures var p := NewPiece(index, length, hash, blockSize);
      (p.FullyDownloaded() <==> p.IsComplete()) <==> 0 < length
  {
    var p := NewPiece(index, length, hash, blockSize);
    if 0 < length {
      assert 0 in p.blocks && !p.blocks[0].IsComplete();
    }
  }

  /** The cast of the data's length to u32 does not make it look like that of the block at `offset`. */
  predicate CastIsExact(p: PieceView, offset: nat, data: seq<byte>) {
    offset in p.blocks && Wrap32(|data|) == p.blocks[offset].length ==> |data| == p.blocks[offset].length
  }

  lemma FramedCastIsExact(p: PieceView, offset: nat, data: seq<byte>)
    requires |data| < U32_RANGE
    ensures CastIsExact(p, offset, data)
  {
    WrapOfU32(|data|);
  }

  /** Data whose length only matches after the cast is what breaks the shape of a piece, and nothing else is. */
  lemma ShapeIsKeptExactly(p: PieceView, offset: nat, data: seq<byte>)
    requires Shaped(p) && offset in p.blocks
    ensures Shaped(p.Store(offset, data)) <==> CastIsExact(p, offset, data)
  {
    var q := p.Store(offset, data);
    if CastIsExact(p, offset, data) {
      StoreKeepsShaped(p, offset, data);
    } else {
      assert q.blocks[offset].state.Received? && |q.blocks[offset].state.data| != q.blocks[offset].length;
    }
  }

  lemma StoreKeepsShaped(p: PieceView, offset: nat, data: seq<byte>)
    requires Shaped(p) && offset in p.blocks && CastIsExact(p, offset, data)
    ensures Shaped(p.Store(offset, data)) && SamePiece(p, p.Store(offset, data))
    ensures p.FullyDownloaded() ==> p.Store(offset, data).FullyDownloaded()
  {
    var b := p.blocks[offset].Receive(data);
    assert b.state.Received? ==> |b.state.data| == b.length;
  }

  lemma VerifyMakesSound(p: PieceView, sha1: Hasher)
    requires Shaped(p) && p.FullyDownloaded()
    ensures p.WellCut() && Sound(p.Verify(sha1), sha1) && SamePiece(p, p.Verify(sha1))
    ensures p.Verify(sha1).IsComplete() <==> p.Verifies(sha1)
  {
    FullPieceIsHashedWhole(p);
    var q := p.Verify(sha1);
    if !p.Verifies(sha1) {
      assert 0 in p.blocks;
      assert !q.blocks[0].IsComplete();
    }
  }

  lemma ReceiveKeepsSound(p: PieceView, sha1: Hasher, offset: nat, data: seq<byte>)
    requires Sound(p, sha1) && CastIsExact(p, offset, data)
    ensures Sound(p.ReceiveBlock(sha1, offset, data), sha1)
    ensures SamePiece(p, p.ReceiveBlock(sha1, offset, data))
  {
    if offset in p.blocks {
      StoreKeepsShaped(p, offset, data);
      if p.Store(offset, data).FullyDownloaded() {
        VerifyMakesSound(p.Store(offset, data), sha1);
      }
    }
  }

  // ------------------------------------------------- what each operation does

  /** The same blocks, each of them missing. */
  ghost predicate AllMissing(before: BlockMap, after: BlockMap) {
    && after.Keys == before.Keys
    && forall o :: o in before ==>
         after[o] == before[o].(state := BlockState.Missing)
  }

  predicate AllArrived(blocks: BlockMap) {
    forall o :: o in blocks ==> blocks[o].state.Received? || blocks[o].state.Written?
  }

  /** A request is recorded with its peer and time in its own block, and changes nothing else. */
  lemma RequestIsRecorded(p: PieceView, offset: nat, peer: PeerIp, now: int)
    ensures p.Request(offset, peer, now)
      == if offset in p.blocks then p.(blocks := p.blocks[offset := p.blocks[offset].(state := Requested(peer, now))]) else p
  {
  }

  /** Requests older than two minutes are given up, in nanoseconds, and nothing else is changed. */
  lemma TimeoutsGiveUpExactly(p: PieceView, now: int)
    ensures var q := p.ResetTimeouts(now);
      && q == p.(blocks := q.blocks) && q.blocks.Keys == p.blocks.Keys
      && forall o :: o in p.blocks ==>
           q.blocks[o] == if p.blocks[o].state.Requested? && now > p.blocks[o].state.instant + 120_000_000_000
             then p.blocks[o].(state := BlockState.Missing) else p.blocks[o]
  {
  }

  /** The blocks after the arrival of data: it is kept exactly when it has the length of its block. */
  function WithData(blocks: BlockMap, offset: nat, data: seq<byte>): BlockMap
    requires offset in blocks
  {
    if |data| == blocks[offset].length then blocks[offset := blocks[offset].(state := Received(data))] else blocks
  }

  lemma StoredBlocks(p: PieceView, offset: nat, data: seq<byte>)
    requires Shaped(p) && offset in p.blocks && CastIsExact(p, offset, data)
    ensures p.Store(offset, data) == p.(blocks := WithData(p.blocks, offset, data))
  {
    if |data| == p.blocks[offset].length {
      FittingBlockIsStored(p, offset, data);
    } else {
      assert p.blocks[offset := p.blocks[offset]] == p.blocks;
    }
  }

  /** While a block is missing, a block that arrives is kept if it fits, and that is all that happens. */
  lemma OpenReceiptLaw(p: PieceView, sha1: Hasher, offset: nat, data: seq<byte>)
    requires Sound(p, sha1) && CastIsExact(p, offset, data)
    ensures offset !in p.blocks ==> p.ReceiveBlock(sha1, offset, data) == p
    ensures offset in p.blocks && !AllArrived(WithData(p.blocks, offset, data)) ==>
      p.ReceiveBlock(sha1, offset, data) == p.(blocks := WithData(p.blocks, offset, data))
  {
    if offset in p.blocks {
      StoredBlocks(p, offset, data);
    }
  }

  /**
   * The block that fills a piece decides it: with the right hash the piece is complete, with any other
   * every block of it is missing again, whatever had arrived before. `bytes` is what the blocks hold.
   */
  lemma FillingReceiptLaw(p: PieceView, sha1: Hasher, offset: nat, data: seq<byte>, bytes: seq<byte>)
    requires Sound(p, sha1) && CastIsExact(p, offset, data) && offset in p.blocks
    requires AllArrived(WithData(p.blocks, offset, data)) && Filled(WithData(p.blocks, offset, data))
    requires HoldsBlocks(bytes, WithData(p.blocks, offset, data), p.length, 0)
    ensures var q := p.ReceiveBlock(sha1, offset, data);
      && q == p.(blocks := q.blocks, state := q.state)
      && if sha1(bytes) == p.hash then q.state.Complete? && q.blocks == WithData(p.blocks, offset, data)
         else q.state.Missing? && AllMissing(p.blocks, q.blocks)
  {
    var r := p.Store(offset, data);
    StoredBlocks(p, offset, data);
    StoreKeepsShaped(p, offset, data);
    assert r.FullyDownloaded();
    FullPieceIsHashedWhole(r);
    HeldBytesAreUnique(r.Hashed().value, bytes, r.blocks, r.length, r.blockSize);
    VerifiedIs(r, sha1, bytes);
  }

  lemma VerifiedIs(r: PieceView, sha1: Hasher, bytes: seq<byte>)
    requires r.WellCut() && r.Hashed() == Some(bytes)
    ensures var q := r.Verify(sha1);
      && q == r.(blocks := q.blocks, state := q.state)
      && if sha1(bytes) == r.hash then q.state.Complete? && q.blocks == r.blocks
         else q.state.Missing? && AllMissing(r.blocks, q.blocks)
  {
  }

  /** The bytes that decide are there, and only one byte string is held by the blocks. */
  lemma FilledBytesExist(p: PieceView, sha1: Hasher, offset: nat, data: seq<byte>) returns (bytes: seq<byte>)
    requires Sound(p, sha1) && CastIsExact(p, offset, data) && offset in p.blocks
    requires AllArrived(WithData(p.blocks, offset, data))
    ensures Filled(WithData(p.blocks, offset, data)) && |bytes| == p.length
    ensures HoldsBlocks(bytes, WithData(p.blocks, offset, data), p.length, 0)
  {
    var r := p.Store(offset, data);
    StoredBlocks(p, offset, data);
    StoreKeepsShaped(p, offset, data);
    assert r.FullyDownloaded();
    FullPieceIsHashedWhole(r);
    bytes := r.Hashed().value;
  }

  function Splice(bytes: seq<byte>, offset: nat, data: seq<byte>): seq<byte>
    requires offset + |data| <= |bytes|
  {
    bytes[..offset] + data + bytes[offset + |data|..]
  }

  lemma SpliceAway(bytes: seq<byte>, offset: nat, data: seq<byte>, at: nat, part: seq<byte>)
    requires offset + |data| <= |bytes| && HoldsAt(bytes, at, part)
    requires at + |part| <= offset || offset + |data| <= at
    ensures HoldsAt(Splice(bytes, offset, data), at, part)
  {
  }

  lemma SpliceThere(bytes: seq<byte>, offset: nat, data: seq<byte>)
    requires offset + |data| <= |bytes|
    ensures HoldsAt(Splice(bytes, offset, data), offset, data)
  {
  }

  /** The block at o, in the spliced bytes. */
  lemma SpliceHoldsBlock(p: PieceView, bytes: seq<byte>, offset: nat, data: seq<byte>, o: nat)
    requires Shaped(p) && Filled(p.blocks) && HoldsBlocks(bytes, p.blocks, p.length, 0)
    requires offset in p.blocks && |data| == p.blocks[offset].length && o in p.blocks
    ensures offset + |data| <= |bytes|
    ensures HoldsAt(Splice(bytes, offset, data), o, if o == offset then data else p.blocks[o].state.data)
  {
    assert HoldsAt(bytes, offset, p.blocks[offset].state.data) && HoldsAt(bytes, o, p.blocks[o].state.data);
    if o == offset {
      SpliceThere(bytes, offset, data);
    } else {
      if o < offset {
        AlignedAreApart(o, offset, p.blockSize);
      } else {
        AlignedAreApart(offset, o, p.blockSize);
      }
      SpliceAway(bytes, offset, data, o, p.blocks[o].state.data);
    }
  }

  lemma SpliceHoldsBlocks(p: PieceView, bytes: seq<byte>, offset: nat, data: seq<byte>, after: BlockMap)
    requires Shaped(p) && Filled(p.blocks) && HoldsBlocks(bytes, p.blocks, p.length, 0)
    requires offset in p.blocks && |data| == p.blocks[offset].length
    requires after == p.blocks[offset := p.blocks[offset].(state := Received(data))]
    ensures offset + |data| <= |bytes|
    ensures Filled(after) && HoldsBlocks(Splice(bytes, offset, data), after, p.length, 0)
  {
    SpliceHoldsBlock(p, bytes, offset, data, offset);
    forall o | o in after && 0 <= o ensures HoldsAt(Splice(bytes, offset, data), o - 0, after[o].state.data) {
      SpliceHoldsBlock(p, bytes, offset, data, o);
    }
  }

  lemma FittingBlockIsStored(p: PieceView, offset: nat, data: seq<byte>)
    requires Shaped(p) && offset in p.blocks && |data| == p.blocks[offset].length
    ensures p.Store(offset, data).blocks == p.blocks[offset := p.blocks[offset].(state := Received(data))]
  {
    assert |data| < U32_RANGE;
  }

  lemma SplicedBytes(p: PieceView, q: PieceView, offset: nat, data: seq<byte>)
    requires Shaped(p) && p.FullyDownloaded() && Shaped(q) && q.FullyDownloaded() && SamePiece(p, q)
    requires offset in p.blocks && |data| == p.blocks[offset].length
    requires q.blocks == p.blocks[offset := p.blocks[offset].(state := Received(data))]
    ensures p.WellCut() && p.Hashed().Some? && offset + |data| <= |p.Hashed().value|
    ensures q.WellCut() && q.Hashed() == Some(Splice(p.Hashed().value, offset, data))
  {
    FullPieceIsHashedWhole(p);
    FullPieceIsHashedWhole(q);
    var bytes := p.Hashed().value;
    SpliceHoldsBlocks(p, bytes, offset, data, q.blocks);
    HeldBytesAreUnique(q.Hashed().value, Splice(bytes, offset, data), q.blocks, q.length, q.blockSize);
  }

  /** A block that arrives for a full piece replaces its own stretch of the hashed bytes. */
  lemma StoredPieceIsSplice(p: PieceView, offset: nat, data: seq<byte>)
    requires Shaped(p) && p.FullyDownloaded() && offset in p.blocks && |data| == p.blocks[offset].length
    ensures p.WellCut() && p.Hashed().Some? && offset + |data| <= |p.Hashed().value|
    ensures p.Store(offset, data).WellCut()
    ensures p.Store(offset, data).Hashed() == Some(Splice(p.Hashed().value, offset, data))
  {
    StoreKeepsShaped(p, offset, data);
    FittingBlockIsStored(p, offset, data);
    SplicedBytes(p, p.Store(offset, data), offset, data);
  }

  /**
   * Completeness is not monotone: a block that fits is stored even in a complete piece, which stays
   * complete exactly when the bytes with that block spliced in still have its hash.
   */
  lemma CompleteSurvivesExactly(p: PieceView, sha1: Hasher, offset: nat, data: seq<byte>)
    requires Sound(p, sha1) && p.IsComplete() && CastIsExact(p, offset, data)
    ensures p.Hashed().Some?
    ensures offset in p.blocks ==> offset + p.blocks[offset].length <= |p.Hashed().value|
    ensures p.ReceiveBlock(sha1, offset, data).IsComplete() <==>
      (offset in p.blocks && |data| == p.blocks[offset].length ==>
        sha1(Splice(p.Hashed().value, offset, data)) == p.hash)
  {
    FullPieceIsHashedWhole(p);
    if offset in p.blocks {
      StoreKeepsShaped(p, offset, data);
      VerifyMakesSound(p.Store(offset, data), sha1);
      if |data| == p.blocks[offset].length {
        StoredPieceIsSplice(p, offset, data);
      } else {
        assert p.Store(offset, data).blocks == p.blocks;
      }
    }
  }

  /** Requests target only blocks that are not complete; that is what keeps completeness intact. */
  lemma RequestKeepsSound(p: PieceView, sha1: Hasher, offset: nat, peer: PeerIp, now: int)
    requires Sound(p, sha1) && (offset in p.blocks ==> !p.blocks[offset].IsComplete())
    ensures Sound(p.Request(offset, peer, now), sha1)
    ensures SamePiece(p, p.Request(offset, peer, now))
  {
    var q := p.Request(offset, peer, now);
    if offset in p.blocks {
      assert !q.blocks[offset].IsComplete();
    } else {
      assert q == p;
    }
  }

  lemma ResetKeepsSound(p: PieceView, sha1: Hasher, now: int)
    requires Sound(p, sha1)
    ensures Sound(p.ResetTimeouts(now), sha1)
    ensures SamePiece(p, p.ResetTimeouts(now))
  {
    var q := p.ResetTimeouts(now);
    if p.FullyDownloaded() {
      assert q.blocks == p.blocks;
    } else {
      var o :| o in p.blocks && !p.blocks[o].IsComplete();
      assert !q.blocks[o].IsComplete();
    }
  }

  lemma MarkWrittenKeepsSound(p: PieceView, sha1: Hasher)
    requires Sound(p, sha1) && p.IsComplete()
    ensures Sound(p.MarkWritten(), sha1)
    ensures SamePiece(p, p.MarkWritten())
  {
    assert p.MarkWritten().Hashed() == p.Hashed();
  }

  // ------------------------------------------------------------ the object

  lemma NoneAlignedBetween(a: nat, b: nat, d: nat)
    requires 0 < d && Aligned(a, d) && a < b <= a + d
    ensures forall o: nat :: a < o < b ==> !Aligned(o, d)
    ensures b == a + d ==> Aligned(b, d)
  {
    forall o: nat | a < o < b ensures !Aligned(o, d) {
      if Aligned(o, d) {
        AlignedAreApart(a, o, d);
      }
    }
  }

  /** A piece owns its blocks: the map never changes after construction, the blocks do. */
  class Piece {
    const index: nat
    const length: nat
    const hash: Digest
    const blockSize: nat
    const blocks: map<nat, Block>
    var state: PieceState

    ghost predicate Valid() {
      && CanBeCut(length, blockSize)
      && forall o :: o in blocks ==> blocks[o].offset == o && 0 < blocks[o].length
    }

    ghost function View(): PieceView
      reads this, blocks.Values
    {
      PieceView(index, length, hash, blockSize, map o | o in blocks :: blocks[o].View(), state)
    }

    /** Cuts a piece into blocks. The precondition is the exact condition for the loop to end. */
    static method Cut(index: nat, length: nat, blockSize: nat) returns (cut: map<nat, Block>)
      requires CanBeCut(length, blockSize)
      ensures fresh(cut.Values)
      ensures cut.Keys == NewBlocks(index, length, blockSize).Keys
      ensures forall o :: o in cut ==> cut[o].View() == NewBlocks(index, length, blockSize)[o]
    {
      cut := map[];
      var offset := 0;
      while offset < length
        invariant offset < length ==> 0 < blockSize && Aligned(offset, blockSize)
        invariant offset >= length ==> offset == length
        invariant forall o {:trigger o in cut} :: o in cut <==> 0 <= o < offset && Aligned(o, blockSize)
        invariant forall o :: o in cut ==> fresh(cut[o]) && cut[o].state == BlockState.Missing
        invariant forall o :: o in cut ==>
          cut[o].index == index && cut[o].offset == o && cut[o].length == Min(blockSize, length - o)
        decreases length - offset
      {
        var blockLength := Min(blockSize, Wrap32(length - offset));
        var block := new Block(index, offset, blockLength);
        NoneAlignedBetween(offset, offset + blockLength, blockSize);
        cut := cut[offset := block];
        offset := offset + blockLength;
      }
    }

    constructor (index: nat, length: nat, hash: Digest, blockSize: nat)
      requires CanBeCut(length, blockSize)
      ensures Valid() && fresh(blocks.Values)
      ensures this.index == index && forall o :: o in blocks ==> blocks[o].index == index
      ensures View() == NewPiece(index, length, hash, blockSize)
    {
      var cut := Cut(index, length, blockSize);
      this.index, this.length, this.hash, this.blockSize := index, length, hash, blockSize;
      blocks := cut;
      state := PieceState.Missing;
      new;
      assert View().blocks == NewBlocks(index, length, blockSize);
    }

    method RequestFromPeer(offset: nat, peer: PeerIp, now: int)
      requires Valid()
      modifies blocks.Values
      ensures View() == old(View()).Request(offset, peer, now)
    {
      if offset in blocks {
        blocks[offset].RequestFromPeer(peer, now);
      }
    }

    predicate IsFullyDownloaded()
      reads this, blocks.Values
      ensures IsFullyDownloaded() == View().FullyDownloaded()
    {
      assert forall o :: o in blocks ==> View().blocks[o] == blocks[o].View();
      forall o | o in blocks :: blocks[o].IsComplete()
    }

    predicate IsComplete()
      reads this
    {
      state.Complete? || state.Written?
    }

    /** The first half of verification: the blocks' data in order, or None at the first gap. */
    method Assemble() returns (r: Option<seq<byte>>)
      requires Valid()
      ensures View().WellCut() && r == View().Hashed()
    {
      ghost var was := View();
      var buf: seq<byte> := [];
      var offset := 0;
      PrependNothing(was.Hashed());
      while offset < length
        invariant was.Hashed() == Prepend(buf, JoinByStride(was.blocks, length, blockSize, offset))
        decreases length - offset
      {
        if offset in blocks {
          if blocks[offset].state.Received? {
            PrependIsAssociative(buf, blocks[offset].state.data,
              JoinByStride(was.blocks, length, blockSize, offset + blockSize));
            buf := buf + blocks[offset].state.data;
            offset := offset + blockSize;
          } else {
            return None;
          }
        } else {
          return None;
        }
      }
      assert buf + [] == buf;
      return Some(buf);
    }

    method Verify(sha1: Hasher) returns (ok: bool)
      requires Valid()
      modifies this, blocks.Values
      ensures old(View()).WellCut() && View() == old(View()).Verify(sha1)
      ensures ok == old(View()).Verifies(sha1)
      ensures ok ==> state == Complete
      ensures !ok && old(View()).Hashed().Some? ==>
        state == PieceState.Missing && forall o :: o in blocks ==> blocks[o].state == BlockState.Missing
    {
      var joined := Assemble();
      if joined.None? {
        return false;
      }
      if sha1(joined.value) == hash {
        state := Complete;
        return true;
      }
      CancelAll();
      state := PieceState.Missing;
      return false;
    }

    /** The visit of every block after a failed check, in any order. */
    method CancelAll()
      requires Valid()
      modifies blocks.Values
      ensures forall o :: o in blocks ==> blocks[o].View() == old(blocks[o].View()).Cancel()
      ensures forall o :: o in blocks ==> blocks[o].state == BlockState.Missing
    {
      var rest := blocks.Keys;
      while rest != {}
        invariant rest <= blocks.Keys
        invariant forall o :: o in rest ==> blocks[o].View() == old(blocks[o].View())
        invariant forall o :: o in blocks && o !in rest ==>
          blocks[o].View() == old(blocks[o].View()).Cancel() && blocks[o].state == BlockState.Missing
        decreases rest
      {
        var o :| o in rest;
        blocks[o].Cancel();
        rest := rest - {o};
      }
    }

    method ReceiveBlock(sha1: Hasher, offset: nat, data: seq<byte>) returns (known: bool)
      requires Valid()
      modifies this, blocks.Values
      ensures old(View()).WellCut() && View() == old(View()).ReceiveBlock(sha1, offset, data)
      ensures known == (offset in blocks)
    {
      if offset in blocks {
        blocks[offset].ReceiveData(data);
        assert View() == old(View()).Store(offset, data);
        if IsFullyDownloaded() {
          var _ := Verify(sha1);
        }
        known := true;
      } else {
        known := false;
      }
    }

    method MarkWritten()
      modifies this
      ensures View() == old(View()).MarkWritten()
    {
      state := PieceState.Written;
    }

    /** Some block that is not complete, whichever the iteration order meets first. */
    method GetNextMissingBlock() returns (r: Option<nat>)
      ensures r.Some? ==> r.value in blocks && !blocks[r.value].IsComplete()
      ensures r.None? ==> IsFullyDownloaded()
    {
      var rest := blocks.Keys;
      while rest != {}
        invariant rest <= blocks.Keys
        invariant forall o :: o in blocks && o !in rest ==> blocks[o].IsComplete()
        decreases rest
      {
        var o :| o in rest;
        if !blocks[o].IsComplete() {
          return Some(o);
        }
        rest := rest - {o};
      }
      return None;
    }

    /** Cancels the requests that timed out; the result maps their offsets to the peers asked. */
    method ResetTimeoutRequests(now: int) returns (expired: map<nat, PeerIp>)
      requires Valid()
      modifies blocks.Values
      ensures View() == old(View()).ResetTimeouts(now)
      ensures forall o :: o in expired <==>
        o in blocks && old(blocks[o].state).Requested? && now > old(blocks[o].state).instant + 120_000_000_000
      ensures forall o :: o in expired ==> old(blocks[o].state).Requested? && expired[o] == old(blocks[o].state).peer
    {
      expired := map[];
      var rest := blocks.Keys;
      while rest != {}
        invariant rest <= blocks.Keys
        invariant forall o :: o in rest ==> blocks[o].View() == old(blocks[o].View())
        invariant forall o :: o in blocks && o !in rest ==> blocks[o].View() == old(blocks[o].View()).Reset(now)
        invariant forall o :: o in expired <==> o in blocks && o !in rest && old(blocks[o].View()).TimedOut(now)
        invariant forall o :: o in expired ==>
          old(blocks[o].View()).TimedOut(now) && expired[o] == old(blocks[o].View()).state.peer
        decreases rest
      {
        var o :| o in rest;
        var peer := blocks[o].Reset(now);
        if peer.Some? {
          expired := expired[o := peer.value];
        }
        rest := rest - {o};
      }
    }

    method GetPieceData() returns (r: Option<seq<byte>>)
      requires Valid()
      ensures View().WellCut() && r == View().Data()
    {
      if state != Complete {
        return None;
      }
      ghost var was := View();
      var data: seq<byte> := [];
      var offset := 0;
      PrependNothing(JoinByLength(was.blocks, length, 0));
      while offset < length
        invariant JoinByLength(was.blocks, length, 0) == Prepend(data, JoinByLength(was.blocks, length, offset))
        decreases length - offset
      {
        if offset in blocks {
          assert was.blocks[offset] == blocks[offset].View();
          if blocks[offset].state.Received? {
            PrependIsAssociative(data, blocks[offset].state.data,
              JoinByLength(was.blocks, length, offset + blocks[offset].length));
            data := data + blocks[offset].state.data;
            offset := offset + blocks[offset].length;
          } else {
            return None;
          }
        } else {
          return None;
        }
      }
      assert data + [] == data;
      return Some(data);
    }
  }
}
