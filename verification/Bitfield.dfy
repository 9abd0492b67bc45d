/**
 * Bitfields: one bit a piece, high bit first (BEP 3, section "peer messages"). The point query is
 * PeerState::has_piece (src/core/peer/peer_state.rs); the listing and the in-place update belong to
 * the download manager (src/core/peer/download_manager.rs).
 */
module Bitfields {
  import opened Bytes

  function Mask(k: nat): bv8
    requires k < 8
  {
    (1 as bv8) << k
  }

  predicate HasBit(b: byte, k: nat)
    requires k < 8
  {
    (b as bv8) & Mask(k) != 0
  }

  function WithBit(b: byte, k: nat): byte
    requires k < 8
  {
    ((b as bv8) | Mask(k)) as int
  }

  lemma MaskTable(k: nat)
    requires k < 8
    ensures Mask(k) == [1, 2, 4, 8, 16, 32, 64, 128][k]
  {
  }

  lemma MasksAreSingleBits(v: bv8, k: nat, m: nat)
    requires k < 8 && m < 8
    ensures (v | Mask(k)) & Mask(m) != 0 <==> (v & Mask(m) != 0 || k == m)
  {
    MaskTable(k);
    MaskTable(m);
  }

  lemma ThereAndBack(v: bv8)
    ensures (v as int) as bv8 == v
  {
  }

  lemma NextVector(v: bv8)
    requires v as int < 255
    ensures (v + 1) as int == v as int + 1
  {
  }

  /** Each byte is the value of a bit vector. */
  lemma {:induction false} VectorOf(b: byte) returns (v: bv8)
    ensures v as int == b
  {
    if b == 0 {
      v := 0;
    } else {
      v := VectorOf(b - 1);
      NextVector(v);
      v := v + 1;
    }
  }

  lemma BackAndThere(b: byte)
    ensures (b as bv8) as int == b
  {
    var v := VectorOf(b);
    ThereAndBack(v);
  }

  function BitOf(v: bv8, mask: bv8): nat {
    if v & mask != 0 then 1 else 0
  }

  lemma VectorIsSum(v: bv8)
    ensures v as int == 128 * BitOf(v, 128) + 64 * BitOf(v, 64) + 32 * BitOf(v, 32) + 16 * BitOf(v, 16)
                      + 8 * BitOf(v, 8) + 4 * BitOf(v, 4) + 2 * BitOf(v, 2) + BitOf(v, 1)
  {
  }

  function Digits(b: byte): seq<nat> {
    seq(8, k requires 0 <= k < 8 => if HasBit(b, k) then 1 else 0)
  }

  /** Binary digits from the i-th on, lowest first, as a number. */
  function Number(digits: seq<nat>, i: nat): nat
    requires i <= |digits|
    decreases |digits| - i
  {
    if i == |digits| then 0 else digits[i] + 2 * Number(digits, i + 1)
  }

  function Power(k: nat): (r: nat)
    ensures 0 < r
  {
    if k == 0 then 1 else 2 * Power(k - 1)
  }

  lemma PowerTable(k: nat)
    requires k < 8
    ensures Power(k) == [1, 2, 4, 8, 16, 32, 64, 128][k]
  {
    assert Power(1) == 2 && Power(2) == 4 && Power(3) == 8;
    assert Power(4) == 16 && Power(5) == 32 && Power(6) == 64;
  }

  lemma NumberOfEight(d: seq<nat>)
    requires |d| == 8
    ensures Number(d, 0) == 128 * d[7] + 64 * d[6] + 32 * d[5] + 16 * d[4] + 8 * d[3] + 4 * d[2] + 2 * d[1] + d[0]
  {
    assert Number(d, 7) == d[7];
    assert Number(d, 6) == d[6] + 2 * d[7];
    assert Number(d, 4) == d[4] + 2 * d[5] + 4 * Number(d, 6);
    assert Number(d, 2) == d[2] + 2 * d[3] + 4 * Number(d, 4);
    assert Number(d, 0) == d[0] + 2 * d[1] + 4 * Number(d, 2);
  }

  lemma DigitIsBit(b: byte, k: nat)
    requires k < 8
    ensures Digits(b)[k] == BitOf(b as bv8, [1, 2, 4, 8, 16, 32, 64, 128][k])
  {
    MaskTable(k);
  }

  /** The bits of a byte are its binary digits. */
  lemma ByteIsNumber(b: byte)
    ensures b == Number(Digits(b), 0)
  {
    BackAndThere(b);
    VectorIsSum(b as bv8);
    DigitIsBit(b, 0);
    DigitIsBit(b, 1);
    DigitIsBit(b, 2);
    DigitIsBit(b, 3);
    DigitIsBit(b, 4);
    DigitIsBit(b, 5);
    DigitIsBit(b, 6);
    DigitIsBit(b, 7);
    NumberOfEight(Digits(b));
  }

  lemma HalfFirst(x: nat, w: nat)
    requires 0 < w
    ensures x / (2 * w) == x / 2 / w
  {
    var q, r := x / 2 / w, x / 2 % w;
    assert x / 2 == q * w + r;
    assert x == q * (2 * w) + (2 * r + x % 2);
    ModuloIsUnique(x, q, 2 * r + x % 2, 2 * w);
  }

  lemma {:induction false} DigitOfNumber(d: seq<nat>, i: nat, k: nat)
    requires i + k < |d| && forall m :: 0 <= m < |d| ==> d[m] <= 1
    ensures Number(d, i) / Power(k) % 2 == d[i + k]
    decreases k
  {
    if k > 0 {
      assert Number(d, i) / 2 == Number(d, i + 1);
      HalfFirst(Number(d, i), Power(k - 1));
      DigitOfNumber(d, i + 1, k - 1);
    }
  }

  lemma {:induction false} NumberWithDigit(d: seq<nat>, i: nat, k: nat)
    requires i + k < |d| && d[i + k] == 0
    ensures Number(d[i + k := 1], i) == Number(d, i) + Power(k)
    decreases k
  {
    if k > 0 {
      NumberWithDigit(d, i + 1, k - 1);
    } else {
      SameNumber(d, d[i := 1], i + 1);
    }
  }

  lemma {:induction false} SameNumber(d: seq<nat>, e: seq<nat>, i: nat)
    requires i <= |d| == |e| && forall m :: i <= m < |d| ==> d[m] == e[m]
    ensures Number(d, i) == Number(e, i)
    decreases |d| - i
  {
    if i < |d| {
      SameNumber(d, e, i + 1);
    }
  }

  /** The value of a bit: bit 0 is the lowest of its byte. */
  lemma BitIsDigit(b: byte, k: nat)
    requires k < 8
    ensures HasBit(b, k) <==> b / [1, 2, 4, 8, 16, 32, 64, 128][k] % 2 == 1
  {
    ByteIsNumber(b);
    DigitOfNumber(Digits(b), 0, k);
    PowerTable(k);
  }

  lemma WithBitSetsOneBit(b: byte, k: nat, m: nat)
    requires k < 8 && m < 8
    ensures HasBit(WithBit(b, k), m) <==> HasBit(b, m) || k == m
  {
    MasksAreSingleBits(b as bv8, k, m);
    ThereAndBack((b as bv8) | Mask(k));
  }

  lemma DigitsWithBit(b: byte, k: nat)
    requires k < 8
    ensures Digits(WithBit(b, k)) == Digits(b)[k := 1]
  {
    forall m: nat | m < 8 ensures Digits(WithBit(b, k))[m] == Digits(b)[k := 1][m] {
      WithBitSetsOneBit(b, k, m);
    }
  }

  /** The value of a byte with a bit set. */
  lemma SetBitIsAdded(b: byte, k: nat)
    requires k < 8
    ensures WithBit(b, k) as int ==
      if b / [1, 2, 4, 8, 16, 32, 64, 128][k] % 2 == 1 then b else b as int + [1, 2, 4, 8, 16, 32, 64, 128][k]
  {
    BitIsDigit(b, k);
    ByteIsNumber(b);
    ByteIsNumber(WithBit(b, k));
    DigitsWithBit(b, k);
    PowerTable(k);
    if HasBit(b, k) {
      assert Digits(b)[k := 1] == Digits(b);
    } else {
      NumberWithDigit(Digits(b), 0, k);
    }
  }

  /** Bit j of the bitfield, counting from the high bit of the first byte. */
  predicate BitAt(bitfield: seq<byte>, j: nat) {
    j / 8 < |bitfield| && HasBit(bitfield[j / 8], 7 - j % 8)
  }

  /** The point query; false when no bitfield is known. */
  predicate HasPiece(bitfield: Option<seq<byte>>, index: u32) {
    bitfield.Some? && BitAt(bitfield.value, index)
  }

  /** Piece 0 is the high bit of the first byte, piece 7 its low bit (BEP 3, section "peer messages"). */
  lemma HighBitIsFirst(bitfield: seq<byte>, j: nat)
    ensures BitAt(bitfield, j) <==>
      j / 8 < |bitfield| && bitfield[j / 8] / [128, 64, 32, 16, 8, 4, 2, 1][j % 8] % 2 == 1
  {
    if j / 8 < |bitfield| {
      BitIsDigit(bitfield[j / 8], 7 - j % 8);
    }
  }

  // ---------------------------------------------------------------- listing

  /** The numbers below n that `has` holds for, in order, with the cast of each to u32. */
  function ListedBy(has: nat -> bool, n: nat): seq<u32> {
    if n == 0 then []
    else if has(n - 1) then ListedBy(has, n - 1) + [Wrap32(n - 1)]
    else ListedBy(has, n - 1)
  }

  function Bits(bitfield: seq<byte>): nat -> bool {
    (j: nat) => BitAt(bitfield, j)
  }

  /** The pieces listed from the first n bits. */
  function Listed(bitfield: seq<byte>, n: nat): seq<u32> {
    ListedBy(Bits(bitfield), n)
  }

  function AvailablePieces(bitfield: Option<seq<byte>>): seq<u32> {
    if bitfield.Some? then Listed(bitfield.value, 8 * |bitfield.value|) else []
  }

  ghost predicate StrictlyIncreasing(s: seq<u32>) {
    forall a, b :: 0 <= a < b < |s| ==> s[a] < s[b]
  }

  lemma {:induction false} ListedMembers(has: nat -> bool, n: nat, i: u32)
    ensures i in ListedBy(has, n) <==> exists j: nat :: j < n && has(j) && Wrap32(j) == i
  {
    if n > 0 {
      ListedMembers(has, n - 1, i);
      if has(n - 1) && Wrap32(n - 1) == i {
        assert i in ListedBy(has, n);
      }
    }
  }

  lemma AppendIncreases(s: seq<u32>, x: u32)
    requires StrictlyIncreasing(s) && forall a :: 0 <= a < |s| ==> s[a] < x
    ensures StrictlyIncreasing(s + [x])
  {
  }

  lemma {:induction false} ListedIncreases(has: nat -> bool, n: nat)
    requires n <= U32_RANGE
    ensures StrictlyIncreasing(ListedBy(has, n))
    ensures forall a :: 0 <= a < |ListedBy(has, n)| ==> ListedBy(has, n)[a] < n
  {
    if n > 0 {
      ListedIncreases(has, n - 1);
      WrapOfU32(n - 1);
      AppendIncreases(ListedBy(has, n - 1), n - 1);
    }
  }

  /** The listing is ordered, has no repeats, and names what `has` holds for. */
  ghost predicate ListsWell(has: nat -> bool, n: nat) {
    && StrictlyIncreasing(ListedBy(has, n))
    && forall i: u32 :: i in ListedBy(has, n) <==> has(i)
  }

  ghost predicate NonePastU32(has: nat -> bool) {
    forall j: nat :: U32_RANGE <= j ==> !has(j)
  }

  lemma {:induction false} ListedEnds(has: nat -> bool, n: nat)
    requires NonePastU32(has) && U32_RANGE <= n
    ensures ListedBy(has, n) == ListedBy(has, U32_RANGE)
  {
    if U32_RANGE < n {
      ListedEnds(has, n - 1);
    }
  }

  lemma ListedIfSet(has: nat -> bool, n: nat, i: u32)
    requires NonePastU32(has) && (has(i) ==> i < n)
    ensures i in ListedBy(has, n) <==> has(i)
  {
    ListedMembers(has, n, i);
    WrapOfU32(i);
    if i in ListedBy(has, n) {
      var j: nat :| j < n && has(j) && Wrap32(j) == i;
      WrapOfU32(j);
    }
  }

  lemma ListsWellWithoutHighBits(has: nat -> bool, n: nat)
    requires NonePastU32(has) && forall j: nat :: has(j) ==> j < n
    ensures ListsWell(has, n)
  {
    ListedIncreases(has, if U32_RANGE < n then U32_RANGE else n);
    if U32_RANGE < n {
      ListedEnds(has, n);
    }
    forall i: u32 ensures i in ListedBy(has, n) <==> has(i) {
      ListedIfSet(has, n, i);
    }
  }

  lemma {:induction false} BitIsListed(has: nat -> bool, j: nat, n: nat)
    requires j < n && has(j)
    ensures |ListedBy(has, j)| < |ListedBy(has, n)|
    ensures ListedBy(has, n)[|ListedBy(has, j)|] == Wrap32(j)
  {
    if j < n - 1 {
      BitIsListed(has, j, n - 1);
    }
  }

  lemma ListedTwice(has: nat -> bool, r: nat, j: nat, n: nat)
    requires r < j < n && has(r) && has(j) && Wrap32(r) == Wrap32(j)
    ensures !StrictlyIncreasing(ListedBy(has, n))
  {
    BitIsListed(has, j, n);
    BitIsListed(has, r, n);
    BitIsListed(has, r, j);
  }

  lemma HighBitIsListedTwice(has: nat -> bool, n: nat, j: nat)
    requires U32_RANGE <= j < n && has(j)
    ensures !ListsWell(has, n)
  {
    var r := Wrap32(j);
    BitIsListed(has, j, n);
    if has(r) {
      WrapOfU32(r);
      ListedTwice(has, r, j, n);
    } else {
      assert r in ListedBy(has, n);
    }
  }

  ghost predicate ListingAgrees(bitfield: seq<byte>) {
    && StrictlyIncreasing(AvailablePieces(Some(bitfield)))
    && forall i: u32 :: i in AvailablePieces(Some(bitfield)) <==> HasPiece(Some(bitfield), i)
  }

  ghost predicate NoBitPastU32(bitfield: seq<byte>) {
    forall j: nat :: U32_RANGE <= j ==> !BitAt(bitfield, j)
  }

  lemma SetBitIsInside(bitfield: seq<byte>, j: nat)
    requires BitAt(bitfield, j)
    ensures j < 8 * |bitfield|
  {
  }

  lemma AgreesIsListsWell(bitfield: seq<byte>)
    ensures ListingAgrees(bitfield) <==> ListsWell(Bits(bitfield), 8 * |bitfield|)
  {
    assert forall i: u32 :: HasPiece(Some(bitfield), i) <==> Bits(bitfield)(i);
  }

  /** Listing and point query agree exactly when no piece past 2^32 is claimed. */
  lemma ListingAgreesExactly(bitfield: seq<byte>)
    ensures ListingAgrees(bitfield) <==> NoBitPastU32(bitfield)
  {
    var has, n := Bits(bitfield), 8 * |bitfield|;
    AgreesIsListsWell(bitfield);
    forall j: nat | has(j) ensures j < n {
      SetBitIsInside(bitfield, j);
    }
    if NoBitPastU32(bitfield) {
      ListsWellWithoutHighBits(has, n);
    } else {
      var j: nat :| U32_RANGE <= j && BitAt(bitfield, j);
      HighBitIsListedTwice(has, n, j);
    }
  }

  /** A bitfield of at most 2^29 bytes has a u32 index for every bit. */
  lemma ShortBitfieldsAreListed(bitfield: seq<byte>)
    requires |bitfield| <= 0x2000_0000
    ensures ListingAgrees(bitfield)
  {
    ListingAgreesExactly(bitfield);
  }

  // ------------------------------------------------------------------ update

  /** The bitfield after a Have message; an index past its end changes nothing. */
  function SetHave(bitfield: seq<byte>, index: u32): seq<byte> {
    var byteIndex := index / 8;
    if byteIndex < Wrap32(|bitfield|) then
      assert byteIndex < |bitfield|;
      bitfield[byteIndex := WithBit(bitfield[byteIndex], 7 - index % 8)]
    else bitfield
  }

  /** A Have message adds its piece, when in range, and changes no other bit. */
  lemma SetHaveAddsOne(bitfield: seq<byte>, index: u32, i: u32)
    requires |bitfield| < U32_RANGE
    ensures |SetHave(bitfield, index)| == |bitfield|
    ensures BitAt(SetHave(bitfield, index), i) <==> BitAt(bitfield, i) || (i == index && index / 8 < |bitfield|)
  {
    if index / 8 < |bitfield| && i / 8 == index / 8 {
      WithBitSetsOneBit(bitfield[index / 8], 7 - index % 8, 7 - i % 8);
    }
  }

  function SetHaves(bitfield: seq<byte>, indices: seq<u32>): seq<byte> {
    if indices == [] then bitfield
    else SetHave(SetHaves(bitfield, indices[..|indices| - 1]), indices[|indices| - 1])
  }

  /** A run of Have messages amounts to the union of what was known and what was announced. */
  lemma {:induction false} SetHavesIsUnion(bitfield: seq<byte>, indices: seq<u32>, i: u32)
    requires |bitfield| < U32_RANGE
    ensures |SetHaves(bitfield, indices)| == |bitfield|
    ensures BitAt(SetHaves(bitfield, indices), i) <==> BitAt(bitfield, i) || (i in indices && i / 8 < |bitfield|)
    decreases |indices|
  {
    if indices != [] {
      var rest, last := indices[..|indices| - 1], indices[|indices| - 1];
      assert indices == rest + [last];
      SetHavesIsUnion(bitfield, rest, i);
      SetHaveAddsOne(SetHaves(bitfield, rest), last, i);
    }
  }
}
