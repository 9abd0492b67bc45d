/** Pieces on disk: `write_piece` and `read_piece` (src/core/disk_io.rs) against one flat image. */
module PieceStore {
  import opened Bytes
  import opened Disk

  /** The first byte of piece i in the torrent: i * pieceLength, not wrapped. */
  function At(g: Geometry, i: nat): nat {
    Times(i, g.pieceLength)
  }

  /** One open file per entry, none shorter than declared. */
  ghost predicate Opened(g: Geometry, files: Files) {
    match g.layout
    case SingleFile(_) => |files| == 1
    case MultiFile(lengths) => Sized(lengths, files)
  }

  /** Files as they are after opening: a single file of at least its length, or each of its declared length. */
  ghost predicate HasShape(g: Geometry, files: Files) {
    match g.layout
    case SingleFile(length) => |files| == 1 && length <= |files[0]|
    case MultiFile(lengths) => |files| == |lengths| && forall k :: 0 <= k < |lengths| ==> |files[k]| == lengths[k]
  }

  /** What the files hold, as one run of bytes: of several files their declared bytes. */
  ghost function Image(g: Geometry, files: Files): seq<byte>
    requires Opened(g, files)
  {
    match g.layout
    case SingleFile(_) => files[0]
    case MultiFile(lengths) => Flat(lengths, files)
  }

  lemma ImageLength(g: Geometry, files: Files)
    requires Opened(g, files)
    ensures HasShape(g, files) ==> g.Total() <= |Image(g, files)|
    ensures g.layout.MultiFile? ==> |Image(g, files)| == g.Total()
  {
    match g.layout
    case SingleFile(_) =>
    case MultiFile(lengths) => FlatLength(lengths, files, 0);
  }

  /** The image says all there is to know about the files. */
  lemma ImageDeterminesFiles(g: Geometry, a: Files, b: Files)
    requires HasShape(g, a) && HasShape(g, b) && Image(g, a) == Image(g, b)
    ensures a == b
  {
    match g.layout
    case SingleFile(_) =>
    case MultiFile(lengths) => FlatDeterminesFiles(lengths, a, b);
  }

  // ---------------------------------------------------------------- writing

  /** `write_piece` without I/O errors: None when the offset lies past the end of the torrent. */
  function WritePiece(g: Geometry, files: Files, i: u32, data: seq<byte>): (r: Option<Files>)
    requires Opened(g, files)
    ensures r.Some? ==> Opened(g, r.value)
  {
    var offset := g.Offset(i);
    if offset >= g.Total() then None
    else match g.layout
      case SingleFile(_) => Some([WriteAt(files[0], offset, data)])
      case MultiFile(lengths) => WriteMulti(g.seek, lengths, files, offset, data)
  }

  /**
   * When writing piece i does what it should: its offset fits in u32 and lies inside the torrent, and
   * the seek rule is right for it.
   */
  predicate Writable(g: Geometry, i: nat) {
    && At(g, i) < U32_RANGE
    && At(g, i) < g.Total()
    && (g.layout.MultiFile? && g.seek.AtPieceOffset? ==> CodedSeekIsRight(g.layout.lengths, At(g, i), g.pieceLength))
  }

  /** The part of a piece's data that has room on disk: a single file grows, several files do not. */
  function Fit(g: Geometry, i: nat, data: seq<byte>): (r: seq<byte>)
    ensures r <= data
  {
    match g.layout
    case SingleFile(_) => data
    case MultiFile(_) => data[..Clip(g.Total() - At(g, i), |data|)]
  }

  lemma OffsetIsExact(g: Geometry, i: u32)
    requires At(g, i) < U32_RANGE
    ensures g.Offset(i) == At(g, i)
  {
    TimesIsProduct(i, g.pieceLength);
  }

  lemma MultiWriteLaw(seek: SeekRule, lengths: seq<nat>, files: Files, offset: nat, data: seq<byte>)
    requires Sized(lengths, files) && offset < Start(lengths, |lengths|)
    requires seek.AtPieceOffset? && data != [] ==> CodedSeekIsRight(lengths, offset, |data|)
    ensures var r := WriteMulti(seek, lengths, files, offset, data);
      && r.Some?
      && Sized(lengths, r.value)
      && (forall j :: 0 <= j < |files| ==> |r.value[j]| == |files[j]|)
      && Flat(lengths, r.value) == WriteAt(Flat(lengths, files), offset, data[..Min(|data|, Start(lengths, |lengths|) - offset)])
  {
    if seek.AtPieceOffset? {
      CodedSeekAgrees(lengths, files, offset, data);
    }
    MultiFileWriteKeepsLengths(lengths, files, offset, data);
    MultiFileWriteOverwrites(lengths, files, offset, data);
  }

  lemma MultiPieceLaw(g: Geometry, lengths: seq<nat>, files: Files, i: u32, data: seq<byte>)
    requires g.layout == MultiFile(lengths) && Sized(lengths, files) && Writable(g, i) && |data| <= g.pieceLength
    ensures var r := WritePiece(g, files, i, data);
      && r.Some?
      && (HasShape(g, files) ==> HasShape(g, r.value))
      && Image(g, r.value) == WriteAt(Image(g, files), At(g, i), Fit(g, i, data))
  {
    OffsetIsExact(g, i);
    MultiWriteLaw(g.seek, lengths, files, At(g, i), data);
  }

  /**
   * Writing a piece, or any prefix of it, replaces exactly its own stretch of the image, as far as
   * there is room for it, whatever the layout of the files.
   */
  lemma WritePieceLaw(g: Geometry, files: Files, i: u32, data: seq<byte>)
    requires Opened(g, files) && Writable(g, i) && |data| <= g.pieceLength
    ensures var r := WritePiece(g, files, i, data);
      && r.Some?
      && (HasShape(g, files) ==> HasShape(g, r.value))
      && Image(g, r.value) == WriteAt(Image(g, files), At(g, i), Fit(g, i, data))
  {
    match g.layout
    case SingleFile(_) => OffsetIsExact(g, i);
    case MultiFile(lengths) => MultiPieceLaw(g, lengths, files, i, data);
  }

  // ------------------------------------------------- misplaced pieces

  /** `write_piece` takes the piece when the offset it computes lies inside the torrent. */
  predicate Accepted(g: Geometry, i: u32) {
    g.Offset(i) < g.Total()
  }

  lemma AcceptedExactly(g: Geometry, files: Files, i: u32, data: seq<byte>)
    requires Opened(g, files)
    ensures WritePiece(g, files, i, data).Some? <==> Accepted(g, i)
  {
  }

  /** Every piece before a writable one is writable. */
  lemma WritableBelow(g: Geometry, j: nat, i: nat)
    requires j <= i && Writable(g, i)
    ensures Writable(g, j)
  {
    if j < i {
      TimesApart(j, i, g.pieceLength);
    }
  }

  lemma MultiKeepsBelow(lengths: seq<nat>, files: Files, offset: nat, data: seq<byte>, x: nat)
    requires Sized(lengths, files) && x < offset < Start(lengths, |lengths|)
    ensures var r := WriteMulti(AtPieceOffset, lengths, files, offset, data);
      && r.Some? && Sized(lengths, r.value)
      && x < |Flat(lengths, files)| && x < |Flat(lengths, r.value)| && Flat(lengths, r.value)[x] == Flat(lengths, files)[x]
  {
    var r := WriteMulti(AtPieceOffset, lengths, files, offset, data).value;
    var j := Locate(lengths, x, 0);
    CodedMultiKeepsBelow(lengths, files, offset, data, j, x - Start(lengths, j));
    FlatAt(lengths, files, 0, j, x - Start(lengths, j));
    FlatAt(lengths, r, 0, j, x - Start(lengths, j));
  }

  /**
   * A write leaves every byte of the torrent before the piece as it was, even where the seek misplaces
   * the piece: in each file it lands no nearer to the beginning than the piece's own offset.
   */
  lemma WriteKeepsBelow(g: Geometry, files: Files, i: u32, data: seq<byte>, x: nat)
    requires Opened(g, files) && At(g, i) < U32_RANGE && At(g, i) < g.Total() && |data| <= g.pieceLength
    requires x < At(g, i) && x < |Image(g, files)|
    ensures var r := WritePiece(g, files, i, data);
      r.Some? && x < |Image(g, r.value)| && Image(g, r.value)[x] == Image(g, files)[x]
  {
    if Writable(g, i) {
      WritePieceLaw(g, files, i, data);
    } else {
      OffsetIsExact(g, i);
      MultiKeepsBelow(g.layout.lengths, files, At(g, i), data, x);
    }
  }

  lemma WrittenStretch(image: seq<byte>, p: nat, data: seq<byte>, n: nat)
    requires n <= |data|
    ensures p + n <= |WriteAt(image, p, data)| || n == 0
    ensures n > 0 ==> WriteAt(image, p, data)[p..p + n] == data[..n]
  {
  }

  lemma OtherStretch(image: seq<byte>, p: nat, data: seq<byte>, a: nat, b: nat)
    requires a <= b <= |image| && (b <= p || p + |data| <= a)
    ensures b <= |WriteAt(image, p, data)| && WriteAt(image, p, data)[a..b] == image[a..b]
  {
  }

  // --------------------------------------------------------------- commuting

  lemma WritesCommute(image: seq<byte>, p: nat, a: seq<byte>, q: nat, b: seq<byte>)
    requires p + |a| <= q <= |image|
    ensures WriteAt(WriteAt(image, p, a), q, b) == WriteAt(WriteAt(image, q, b), p, a)
  {
  }

  /** Two writes in a row, as one statement about the image. */
  lemma TwoWritesLaw(g: Geometry, files: Files, i: u32, a: seq<byte>, j: u32, b: seq<byte>) returns (r: Files)
    requires HasShape(g, files) && Writable(g, i) && Writable(g, j)
    requires |a| <= g.pieceLength && |b| <= g.pieceLength
    ensures WritePiece(g, files, i, a).Some? && HasShape(g, WritePiece(g, files, i, a).value)
    ensures WritePiece(g, WritePiece(g, files, i, a).value, j, b) == Some(r)
    ensures HasShape(g, r)
    ensures Image(g, r) == WriteAt(WriteAt(Image(g, files), At(g, i), Fit(g, i, a)), At(g, j), Fit(g, j, b))
  {
    WritePieceLaw(g, files, i, a);
    var mid := WritePiece(g, files, i, a).value;
    WritePieceLaw(g, mid, j, b);
    r := WritePiece(g, mid, j, b).value;
  }

  lemma OrderedWritesCommute(g: Geometry, files: Files, i: u32, a: seq<byte>, j: u32, b: seq<byte>)
    requires HasShape(g, files) && Writable(g, i) && Writable(g, j) && i < j
    requires |a| <= g.pieceLength && |b| <= g.pieceLength
    ensures WritePiece(g, files, i, a).Some? && WritePiece(g, files, j, b).Some?
    ensures WritePiece(g, WritePiece(g, files, i, a).value, j, b)
      == WritePiece(g, WritePiece(g, files, j, b).value, i, a)
  {
    var ij := TwoWritesLaw(g, files, i, a, j, b);
    var ji := TwoWritesLaw(g, files, j, b, i, a);
    ImageLength(g, files);
    TimesApart(i, j, g.pieceLength);
    WritesCommute(Image(g, files), At(g, i), Fit(g, i, a), At(g, j), Fit(g, j, b));
    ImageDeterminesFiles(g, ij, ji);
  }

  /** Writes of different pieces commute, down to the contents of every file. */
  lemma PieceWritesCommute(g: Geometry, files: Files, i: u32, a: seq<byte>, j: u32, b: seq<byte>)
    requires HasShape(g, files) && Writable(g, i) && Writable(g, j) && i != j
    requires |a| <= g.pieceLength && |b| <= g.pieceLength
    ensures WritePiece(g, files, i, a).Some? && WritePiece(g, files, j, b).Some?
    ensures WritePiece(g, WritePiece(g, files, i, a).value, j, b)
      == WritePiece(g, WritePiece(g, files, j, b).value, i, a)
  {
    if i < j {
      OrderedWritesCommute(g, files, i, a, j, b);
    } else {
      OrderedWritesCommute(g, files, j, b, i, a);
    }
  }

  /** Writes the pieces named in `order`, one after the other. */
  ghost function WriteAll(g: Geometry, files: Files, order: seq<u32>, content: u32 -> seq<byte>): Files
    requires HasShape(g, files)
    requires forall i :: i in order ==> Writable(g, i) && |content(i)| == g.pieceLength
    ensures HasShape(g, WriteAll(g, files, order, content))
    decreases |order|
  {
    if order == [] then files
    else
      var last := order[|order| - 1];
      var before := WriteAll(g, files, order[..|order| - 1], content);
      WritePieceLaw(g, before, last, content(last));
      WritePiece(g, before, last, content(last)).value
  }

  /** Where the part of piece i that has room on disk ends. */
  function WriteEnd(g: Geometry, i: nat): nat {
    match g.layout
    case SingleFile(_) => At(g, i) + g.pieceLength
    case MultiFile(_) => Min(At(g, i) + g.pieceLength, g.Total())
  }

  lemma FitEnds(g: Geometry, i: nat, data: seq<byte>)
    requires At(g, i) < g.Total() && |data| == g.pieceLength
    ensures At(g, i) + |Fit(g, i, data)| == WriteEnd(g, i)
  {
  }

  predicate InPiece(g: Geometry, i: nat, x: nat) {
    At(g, i) <= x < At(g, i) + g.pieceLength
  }

  lemma PiecesAreDisjoint(g: Geometry, i: nat, j: nat, x: nat)
    requires InPiece(g, i, x) && InPiece(g, j, x)
    ensures i == j
  {
    if i < j {
      TimesApart(i, j, g.pieceLength);
    } else if j < i {
      TimesApart(j, i, g.pieceLength);
    }
  }

  /** The image ends where it did, or with the last piece written. */
  ghost predicate EndsRight(g: Geometry, was: seq<byte>, now: seq<byte>, order: seq<u32>) {
    && |was| <= |now|
    && (forall i :: i in order ==> WriteEnd(g, i) <= |now|)
    && (|now| == |was| || exists i :: i in order && WriteEnd(g, i) == |now|)
  }

  /** Byte x of the image after all writes: from the piece it lies in if that was written, else as before. */
  ghost predicate ByteIsRight(g: Geometry, was: seq<byte>, now: seq<byte>, order: seq<u32>, content: u32 -> seq<byte>, x: nat)
    requires x < |now|
  {
    if exists i :: i in order && InPiece(g, i, x) then
      exists i :: i in order && InPiece(g, i, x) && |content(i)| == g.pieceLength && now[x] == content(i)[x - At(g, i)]
    else x < |was| && now[x] == was[x]
  }

  ghost predicate AllWritable(g: Geometry, order: seq<u32>, content: u32 -> seq<byte>) {
    forall i :: i in order ==> Writable(g, i) && |content(i)| == g.pieceLength
  }

  lemma {:induction false} WritesEndRight(g: Geometry, files: Files, order: seq<u32>, content: u32 -> seq<byte>)
    requires HasShape(g, files) && AllWritable(g, order, content)
    ensures EndsRight(g, Image(g, files), Image(g, WriteAll(g, files, order, content)), order)
    decreases |order|
  {
    if order != [] {
      var last, rest := order[|order| - 1], order[..|order| - 1];
      assert order == rest + [last];
      var before := WriteAll(g, files, rest, content);
      WritesEndRight(g, files, rest, content);
      WritePieceLaw(g, before, last, content(last));
      ImageLength(g, before);
      FitEnds(g, last, content(last));
      OneMoreEndsRight(g, Image(g, files), Image(g, before), rest, last, Fit(g, last, content(last)));
    }
  }

  lemma OneMoreEndsRight(g: Geometry, was: seq<byte>, mid: seq<byte>, rest: seq<u32>, last: u32, data: seq<byte>)
    requires EndsRight(g, was, mid, rest) && At(g, last) + |data| == WriteEnd(g, last) && At(g, last) < |mid|
    ensures EndsRight(g, was, WriteAt(mid, At(g, last), data), rest + [last])
  {
    var now := WriteAt(mid, At(g, last), data);
    if |now| == |mid| {
      if |mid| != |was| {
        var i :| i in rest && WriteEnd(g, i) == |mid|;
        assert i in rest + [last];
      }
    } else {
      assert last in rest + [last];
    }
  }

  lemma {:induction false} WritesGiveBytes(g: Geometry, files: Files, order: seq<u32>, content: u32 -> seq<byte>, x: nat)
    requires HasShape(g, files) && AllWritable(g, order, content)
    requires x < |Image(g, WriteAll(g, files, order, content))|
    ensures ByteIsRight(g, Image(g, files), Image(g, WriteAll(g, files, order, content)), order, content, x)
    decreases |order|
  {
    if order != [] {
      var last, rest := order[|order| - 1], order[..|order| - 1];
      assert order == rest + [last];
      var before := WriteAll(g, files, rest, content);
      WritePieceLaw(g, before, last, content(last));
      ImageLength(g, before);
      if x < |Image(g, before)| {
        WritesGiveBytes(g, files, rest, content, x);
      }
      OneMoreGivesBytes(g, Image(g, files), Image(g, before), rest, last, content, x);
    }
  }

  lemma OneMoreGivesBytes(g: Geometry, was: seq<byte>, mid: seq<byte>, rest: seq<u32>, last: u32,
                          content: u32 -> seq<byte>, x: nat)
    requires |content(last)| == g.pieceLength && At(g, last) < g.Total() <= |mid|
    requires g.layout.MultiFile? ==> |mid| == g.Total()
    requires x < |mid| ==> ByteIsRight(g, was, mid, rest, content, x)
    requires x < |WriteAt(mid, At(g, last), Fit(g, last, content(last)))|
    ensures ByteIsRight(g, was, WriteAt(mid, At(g, last), Fit(g, last, content(last))), rest + [last], content, x)
  {
    var data := Fit(g, last, content(last));
    var now, order := WriteAt(mid, At(g, last), data), rest + [last];
    FitEnds(g, last, content(last));
    assert now[x] == ByteAfter(mid, At(g, last), data, x);
    if InPiece(g, last, x) {
      assert last in order && now[x] == data[x - At(g, last)];
    } else {
      assert x < |mid| && now[x] == mid[x];
      if i :| i in rest && InPiece(g, i, x) && |content(i)| == g.pieceLength && mid[x] == content(i)[x - At(g, i)] {
        assert i in order;
      }
    }
  }

  /** Whatever the order, and with repeats, writing the same pieces leaves the same files. */
  lemma WriteOrderIsIrrelevant(g: Geometry, files: Files, a: seq<u32>, b: seq<u32>, content: u32 -> seq<byte>)
    requires HasShape(g, files) && AllWritable(g, a, content) && AllWritable(g, b, content)
    requires forall i :: i in a <==> i in b
    ensures WriteAll(g, files, a, content) == WriteAll(g, files, b, content)
  {
    var was := Image(g, files);
    var nowA, nowB := Image(g, WriteAll(g, files, a, content)), Image(g, WriteAll(g, files, b, content));
    WritesEndRight(g, files, a, content);
    WritesEndRight(g, files, b, content);
    assert |nowA| == |nowB|;
    forall x | 0 <= x < |nowA| ensures nowA[x] == nowB[x] {
      WritesGiveBytes(g, files, a, content, x);
      WritesGiveBytes(g, files, b, content, x);
      SameByte(g, was, nowA, nowB, a, b, content, x);
    }
    ImageDeterminesFiles(g, WriteAll(g, files, a, content), WriteAll(g, files, b, content));
  }

  lemma SameByte(g: Geometry, was: seq<byte>, nowA: seq<byte>, nowB: seq<byte>, a: seq<u32>, b: seq<u32>,
                 content: u32 -> seq<byte>, x: nat)
    requires forall i :: i in a <==> i in b
    requires x < |nowA| && ByteIsRight(g, was, nowA, a, content, x)
    requires x < |nowB| && ByteIsRight(g, was, nowB, b, content, x)
    ensures nowA[x] == nowB[x]
  {
    if i :| i in a && InPiece(g, i, x) && |content(i)| == g.pieceLength && nowA[x] == content(i)[x - At(g, i)] {
      assert i in b;
      var j :| j in b && InPiece(g, j, x) && |content(j)| == g.pieceLength && nowB[x] == content(j)[x - At(g, j)];
      PiecesAreDisjoint(g, i, j, x);
    }
  }

  lemma WrittenByteHolds(g: Geometry, was: seq<byte>, now: seq<byte>, order: seq<u32>, content: u32 -> seq<byte>,
                         i: u32, x: nat)
    requires i in order && InPiece(g, i, x) && x < |now| && ByteIsRight(g, was, now, order, content, x)
    ensures |content(i)| == g.pieceLength && now[x] == content(i)[x - At(g, i)]
  {
    var j :| j in order && InPiece(g, j, x) && |content(j)| == g.pieceLength && now[x] == content(j)[x - At(g, j)];
    PiecesAreDisjoint(g, i, j, x);
  }

  lemma WrittenBytesHold(g: Geometry, was: seq<byte>, now: seq<byte>, order: seq<u32>, content: u32 -> seq<byte>, i: u32)
    requires i in order && At(g, i) <= WriteEnd(g, i) <= |now| && |content(i)| == g.pieceLength
    requires forall x :: 0 <= x < |now| ==> ByteIsRight(g, was, now, order, content, x)
    ensures now[At(g, i)..WriteEnd(g, i)] == content(i)[..WriteEnd(g, i) - At(g, i)]
  {
    forall x | At(g, i) <= x < WriteEnd(g, i) ensures now[x] == content(i)[x - At(g, i)] {
      WrittenByteHolds(g, was, now, order, content, i, x);
    }
  }

  /** After all writes, each piece written stands at its place, as far as there is room for it. */
  lemma WritesHold(g: Geometry, files: Files, order: seq<u32>, content: u32 -> seq<byte>, i: u32)
    requires HasShape(g, files) && AllWritable(g, order, content) && i in order
    ensures var now := Image(g, WriteAll(g, files, order, content));
      At(g, i) <= WriteEnd(g, i) <= |now|
      && now[At(g, i)..WriteEnd(g, i)] == content(i)[..WriteEnd(g, i) - At(g, i)]
  {
    var now := Image(g, WriteAll(g, files, order, content));
    WritesEndRight(g, files, order, content);
    forall x | 0 <= x < |now| ensures ByteIsRight(g, Image(g, files), now, order, content, x) {
      WritesGiveBytes(g, files, order, content, x);
    }
    WrittenBytesHold(g, Image(g, files), now, order, content, i);
  }

  // ---------------------------------------------------------------- reading

  /** Collects n bytes from the files from file k on; what is missing past the last file stays zero. */
  function ReadFrom(lengths: seq<nat>, files: Files, k: nat, fileOffset: nat, n: nat): (r: seq<byte>)
    requires Sized(lengths, files) && k <= |lengths| && (k < |lengths| ==> fileOffset <= lengths[k])
    ensures |r| == n
    decreases |lengths| - k
  {
    if n == 0 || k == |lengths| then seq(n, _ => 0)
    else
      var m := Min(n, lengths[k] - fileOffset);
      files[k][fileOffset..fileOffset + m] + ReadFrom(lengths, files, k + 1, 0, n - m)
  }

  /** One turn of the reading loop. */
  lemma ReadGoesOn(lengths: seq<nat>, files: Files, k: nat, fileOffset: nat, n: nat, m: nat, got: seq<byte>)
    requires Sized(lengths, files) && k < |lengths| && fileOffset <= lengths[k]
    requires 0 < n && m == Min(n, lengths[k] - fileOffset)
    ensures got + ReadFrom(lengths, files, k, fileOffset, n)
      == (got + files[k][fileOffset..fileOffset + m]) + ReadFrom(lengths, files, k + 1, 0, n - m)
  {
    assert got + (files[k][fileOffset..fileOffset + m] + ReadFrom(lengths, files, k + 1, 0, n - m))
        == (got + files[k][fileOffset..fileOffset + m]) + ReadFrom(lengths, files, k + 1, 0, n - m);
  }

  /** The reading loop collects a slice of the flat run, however many files it spans. */
  lemma {:induction false} ReadFromIsSlice(lengths: seq<nat>, files: Files, k: nat, fileOffset: nat, n: nat)
    requires Sized(lengths, files) && k <= |lengths|
    requires k < |lengths| ==> fileOffset <= lengths[k]
    requires fileOffset + n <= |FlatFrom(lengths, files, k)|
    ensures ReadFrom(lengths, files, k, fileOffset, n) == FlatFrom(lengths, files, k)[fileOffset..fileOffset + n]
    decreases |lengths| - k
  {
    if n > 0 && k < |lengths| {
      var m := Min(n, lengths[k] - fileOffset);
      ReadFromIsSlice(lengths, files, k + 1, 0, n - m);
    }
  }

  /** Byte x of some bytes, and zero behind them. */
  function ByteOrZero(bytes: seq<byte>, x: nat): byte {
    if x < |bytes| then bytes[x] else 0
  }

  lemma ReadStepPads(head: seq<byte>, tail: seq<byte>, fileOffset: nat, m: nat, rest: seq<byte>, x: nat)
    requires fileOffset + m <= |head| && x < m + |rest| && (fileOffset + m == |head| || |rest| == 0)
    requires m <= x ==> rest[x - m] == ByteOrZero(tail, x - m)
    ensures (head[fileOffset..fileOffset + m] + rest)[x] == ByteOrZero(head + tail, fileOffset + x)
  {
  }

  /** What the files do not have is read as zeros. */
  lemma {:induction false} ReadFromPads(lengths: seq<nat>, files: Files, k: nat, fileOffset: nat, n: nat, x: nat)
    requires Sized(lengths, files) && k <= |lengths| && x < n
    requires if k < |lengths| then fileOffset <= lengths[k] else fileOffset == 0
    ensures ReadFrom(lengths, files, k, fileOffset, n)[x] == ByteOrZero(FlatFrom(lengths, files, k), fileOffset + x)
    decreases |lengths| - k
  {
    if k < |lengths| {
      var m := Min(n, lengths[k] - fileOffset);
      if m <= x {
        ReadFromPads(lengths, files, k + 1, 0, n - m, x - m);
      }
      var head, rest := files[k][..lengths[k]], ReadFrom(lengths, files, k + 1, 0, n - m);
      assert head[fileOffset..fileOffset + m] == files[k][fileOffset..fileOffset + m];
      ReadStepPads(head, FlatFrom(lengths, files, k + 1), fileOffset, m, rest, x);
    }
  }

  lemma {:induction false} FlatSuffix(lengths: seq<nat>, files: Files, k: nat)
    requires Sized(lengths, files) && k <= |lengths|
    ensures Start(lengths, k) <= |Flat(lengths, files)|
    ensures Flat(lengths, files)[Start(lengths, k)..] == FlatFrom(lengths, files, k)
  {
    if k > 0 {
      FlatSuffix(lengths, files, k - 1);
      var flat := Flat(lengths, files);
      assert Start(lengths, k) == Start(lengths, k - 1) + lengths[k - 1];
      assert |flat[Start(lengths, k - 1)..]| >= lengths[k - 1];
      assert flat[Start(lengths, k - 1)..][lengths[k - 1]..] == flat[Start(lengths, k)..];
      assert FlatFrom(lengths, files, k - 1)[lengths[k - 1]..] == FlatFrom(lengths, files, k);
    }
  }

  /** The number of bytes `read_piece` asks for, with the next piece's offset computed in u32. */
  function PieceSize(g: Geometry, i: u32): nat
    requires g.Offset(i) < g.Total()
  {
    if Wrap32((i + 1) * g.pieceLength) > g.Total() then g.Total() - g.Offset(i) else g.pieceLength
  }

  /** `read_piece` without I/O errors; None for a bad index or a read past the end of a single file. */
  function ReadPiece(g: Geometry, files: Files, i: u32): Option<seq<byte>>
    requires Opened(g, files)
  {
    var offset := g.Offset(i);
    if offset >= g.Total() then None
    else
      var n := PieceSize(g, i);
      match g.layout
      case SingleFile(_) => if offset + n <= |files[0]| then Some(files[0][offset..offset + n]) else None
      case MultiFile(lengths) =>
        var k := Locate(lengths, offset, 0);
        Some(ReadFrom(lengths, files, k, offset - Start(lengths, k), n))
  }

  lemma MultiReadLaw(lengths: seq<nat>, files: Files, offset: nat, n: nat)
    requires Sized(lengths, files) && offset < Start(lengths, |lengths|) && offset + n <= Start(lengths, |lengths|)
    ensures |Flat(lengths, files)| == Start(lengths, |lengths|)
    ensures var k := Locate(lengths, offset, 0);
      k < |lengths| && ReadFrom(lengths, files, k, offset - Start(lengths, k), n) == Flat(lengths, files)[offset..offset + n]
  {
    var k := Locate(lengths, offset, 0);
    FlatLength(lengths, files, 0);
    FlatLength(lengths, files, k);
    FlatSuffix(lengths, files, k);
    ReadFromIsSlice(lengths, files, k, offset - Start(lengths, k), n);
    SliceOfSuffix(Flat(lengths, files), Start(lengths, k), offset, n);
  }

  lemma SliceOfSuffix(flat: seq<byte>, start: nat, offset: nat, n: nat)
    requires start <= offset && offset + n <= |flat|
    ensures flat[start..][offset - start..offset - start + n] == flat[offset..offset + n]
  {
  }

  /** When the u32 arithmetic of `read_piece` is right: both ends fit, or the end is not needed. */
  predicate Readable(g: Geometry, i: nat) {
    && At(g, i) < U32_RANGE
    && (At(g, i) + g.pieceLength < U32_RANGE || At(g, i) + g.pieceLength <= g.Total())
  }

  /** The bytes of piece i that belong to the torrent. */
  function EndOf(g: Geometry, i: nat): nat {
    Min(At(g, i) + g.pieceLength, g.Total())
  }

  lemma SizeIsExact(g: Geometry, i: u32)
    requires At(g, i) < g.Total() && Readable(g, i)
    ensures g.Offset(i) == At(g, i) && PieceSize(g, i) == EndOf(g, i) - At(g, i)
  {
    OffsetIsExact(g, i);
    TimesIsProduct(i + 1, g.pieceLength);
    var next := (i + 1) * g.pieceLength;
    assert next == At(g, i) + g.pieceLength;
    if next >= U32_RANGE {
      assert Wrap32(next) <= next;
    }
  }

  /** `read_piece` returns the stretch of the image at the offset it computes. */
  lemma ReadsAtOffset(g: Geometry, files: Files, i: u32)
    requires Opened(g, files) && g.Total() <= |Image(g, files)|
    requires g.Offset(i) < g.Total() && g.Offset(i) + PieceSize(g, i) <= g.Total()
    ensures ReadPiece(g, files, i) == Some(Image(g, files)[g.Offset(i)..g.Offset(i) + PieceSize(g, i)])
  {
    match g.layout
    case SingleFile(_) =>
    case MultiFile(lengths) => MultiReadLaw(lengths, files, g.Offset(i), PieceSize(g, i));
  }

  /** `read_piece` returns the piece's part of the image, also for the short last piece. */
  lemma ReadPieceLaw(g: Geometry, files: Files, i: u32)
    requires Opened(g, files) && g.Total() <= |Image(g, files)| && At(g, i) < g.Total() && Readable(g, i)
    ensures ReadPiece(g, files, i) == Some(Image(g, files)[At(g, i)..EndOf(g, i)])
  {
    SizeIsExact(g, i);
    ReadsAtOffset(g, files, i);
  }

  /** A read is refused past the end of the torrent, and past that of a single file that is too short. */
  lemma ReadRefusedExactly(g: Geometry, files: Files, i: u32)
    requires Opened(g, files)
    ensures ReadPiece(g, files, i).None? <==>
      g.Total() <= g.Offset(i) || (g.layout.SingleFile? && |files[0]| < g.Offset(i) + PieceSize(g, i))
    ensures HasShape(g, files) && Readable(g, i) ==> (ReadPiece(g, files, i).None? <==> g.Total() <= At(g, i))
  {
    if Readable(g, i) {
      OffsetIsExact(g, i);
      if At(g, i) < g.Total() {
        SizeIsExact(g, i);
      }
    }
  }

  /** What was written is read back; of a last piece that runs past the end, the part inside. */
  lemma ReadAfterWrite(g: Geometry, files: Files, i: u32, data: seq<byte>)
    requires HasShape(g, files) && Writable(g, i) && Readable(g, i) && |data| == g.pieceLength
    ensures var r := WritePiece(g, files, i, data);
      r.Some? && HasShape(g, r.value) && ReadPiece(g, r.value, i) == Some(data[..EndOf(g, i) - At(g, i)])
  {
    var n, part := EndOf(g, i) - At(g, i), Fit(g, i, data);
    WritePieceLaw(g, files, i, data);
    FitEnds(g, i, data);
    WrittenStretch(Image(g, files), At(g, i), part, n);
    assert part[..n] == data[..n];
    ImageLength(g, WritePiece(g, files, i, data).value);
    ReadPieceLaw(g, WritePiece(g, files, i, data).value, i);
  }

  lemma WriteKeepsLong(g: Geometry, files: Files, i: u32, data: seq<byte>)
    requires Opened(g, files) && g.Total() <= |Image(g, files)| && Accepted(g, i)
    ensures WritePiece(g, files, i, data).Some?
    ensures g.Total() <= |Image(g, WritePiece(g, files, i, data).value)|
  {
    AcceptedExactly(g, files, i, data);
    ImageLength(g, WritePiece(g, files, i, data).value);
  }

  /** The stretch of another piece is what it was, and of an earlier one also where the seek misplaces piece i. */
  lemma OtherPieceIsKept(g: Geometry, files: Files, i: u32, data: seq<byte>, j: u32)
    requires HasShape(g, files) && At(g, i) < U32_RANGE && At(g, i) < g.Total() && |data| <= g.pieceLength
    requires if Writable(g, i) then i != j else j < i
    requires At(g, j) < g.Total()
    ensures var r := WritePiece(g, files, i, data);
      && r.Some? && g.Total() <= |Image(g, files)| && g.Total() <= |Image(g, r.value)|
      && Image(g, r.value)[At(g, j)..EndOf(g, j)] == Image(g, files)[At(g, j)..EndOf(g, j)]
  {
    ImageLength(g, files);
    OffsetIsExact(g, i);
    WriteKeepsLong(g, files, i, data);
    if j < i {
      TimesApart(j, i, g.pieceLength);
      forall x: nat | At(g, j) <= x < EndOf(g, j)
        ensures Image(g, WritePiece(g, files, i, data).value)[x] == Image(g, files)[x]
      {
        WriteKeepsBelow(g, files, i, data, x);
      }
    } else {
      TimesApart(i, j, g.pieceLength);
      WritePieceLaw(g, files, i, data);
      OtherStretch(Image(g, files), At(g, i), Fit(g, i, data), At(g, j), EndOf(g, j));
    }
  }

  /**
   * Reading any other piece gives what it gave before the write. Of a piece that the seek misplaces this
   * is true for all earlier pieces.
   */
  lemma ReadOfOtherPieceIsUnchanged(g: Geometry, files: Files, i: u32, data: seq<byte>, j: u32)
    requires HasShape(g, files) && At(g, i) < U32_RANGE && At(g, i) < g.Total() && |data| <= g.pieceLength
    requires if Writable(g, i) then i != j else j < i
    requires At(g, j) < g.Total() && Readable(g, j)
    ensures var r := WritePiece(g, files, i, data);
      r.Some? && (Writable(g, i) ==> HasShape(g, r.value)) && ReadPiece(g, r.value, j) == ReadPiece(g, files, j)
  {
    OtherPieceIsKept(g, files, i, data, j);
    ReadPieceLaw(g, files, j);
    ReadPieceLaw(g, WritePiece(g, files, i, data).value, j);
    if Writable(g, i) {
      WritePieceLaw(g, files, i, data);
    }
  }

  /** The pieces read one after the other, up to piece n. */
  function ReadAll(g: Geometry, files: Files, n: nat): seq<byte>
    requires Opened(g, files) && n <= U32_RANGE
  {
    if n == 0 then []
    else
      var piece := ReadPiece(g, files, n - 1);
      ReadAll(g, files, n - 1) + if piece.Some? then piece.value else []
  }

  lemma PrefixGrows(image: seq<byte>, a: nat, b: nat)
    requires a <= b <= |image|
    ensures image[..a] + image[a..b] == image[..b]
  {
  }

  /** Reading the pieces in turn yields the torrent from its first byte. */
  lemma {:induction false} ReadAllIsPrefix(g: Geometry, files: Files, n: nat)
    requires HasShape(g, files) && n <= U32_RANGE
    requires forall i: nat :: i < n ==> At(g, i) < g.Total() && Readable(g, i)
    ensures g.Total() <= |Image(g, files)|
    ensures ReadAll(g, files, n) == Image(g, files)[..Min(At(g, n), g.Total())]
  {
    ImageLength(g, files);
    if n > 0 {
      ReadAllIsPrefix(g, files, n - 1);
      ReadPieceLaw(g, files, n - 1);
      PrefixGrows(Image(g, files), At(g, n - 1), EndOf(g, n - 1));
    }
  }

  /** All ceil(total / pieceLength) pieces together are exactly the content of the torrent. */
  lemma ReadAllIsTorrent(g: Geometry, files: Files, n: nat)
    requires HasShape(g, files) && 0 < n <= U32_RANGE
    requires At(g, n - 1) < g.Total() <= At(g, n) < U32_RANGE
    ensures g.Total() <= |Image(g, files)|
    ensures ReadAll(g, files, n) == Image(g, files)[..g.Total()]
  {
    forall i: nat | i < n ensures At(g, i) < g.Total() && Readable(g, i) {
      if i < n - 1 {
        TimesApart(i, n - 1, g.pieceLength);
      }
    }
    ReadAllIsPrefix(g, files, n);
  }

  // ------------------------------------------------- where u32 arithmetic ends

  /** Files whose byte p of the torrent is f(p). */
  function Spread(g: Geometry, f: nat -> byte): Files {
    match g.layout
    case SingleFile(length) => [seq<byte>(length, p requires 0 <= p => f(p))]
    case MultiFile(lengths) =>
      seq<seq<byte>>(|lengths|, k requires 0 <= k < |lengths| =>
        seq<byte>(lengths[k], x requires 0 <= x => f(Start(lengths, k) + x)))
  }

  lemma SpreadHasShape(g: Geometry, f: nat -> byte)
    ensures HasShape(g, Spread(g, f)) && Opened(g, Spread(g, f))
  {
  }

  lemma SpreadOverFiles(lengths: seq<nat>, files: Files, f: nat -> byte, p: nat)
    requires Sized(lengths, files) && p < Start(lengths, |lengths|)
    requires forall k: nat, x: nat {:trigger files[k][x]} :: k < |lengths| && x < lengths[k] ==>
      files[k][x] == f(Start(lengths, k) + x)
    ensures p < |Flat(lengths, files)| && Flat(lengths, files)[p] == f(p)
  {
    var j := Locate(lengths, p, 0);
    FlatAt(lengths, files, 0, j, p - Start(lengths, j));
  }

  lemma SpreadAt(g: Geometry, f: nat -> byte, p: nat)
    requires p < g.Total()
    ensures HasShape(g, Spread(g, f))
    ensures p < |Image(g, Spread(g, f))| && Image(g, Spread(g, f))[p] == f(p)
  {
    SpreadHasShape(g, f);
    match g.layout
    case SingleFile(_) =>
    case MultiFile(lengths) => SpreadOverFiles(lengths, Spread(g, f), f, p);
  }

  ghost predicate ReadsRight(g: Geometry, i: u32)
    requires At(g, i) < g.Total()
  {
    forall files :: HasShape(g, files) ==>
      |Image(g, files)| >= g.Total() && ReadPiece(g, files, i) == Some(Image(g, files)[At(g, i)..EndOf(g, i)])
  }

  /** Past 2^32 the wrapped offset reads an earlier place. */
  lemma WrappedReadGoesWrong(g: Geometry, i: u32)
    requires 0 < g.pieceLength && U32_RANGE <= At(g, i) < g.Total()
    ensures !ReadsRight(g, i)
  {
    TimesIsProduct(i, g.pieceLength);
    var offset := g.Offset(i);
    assert offset + U32_RANGE <= At(g, i);
    var f: nat -> byte := p => if p == At(g, i) then 1 else 0;
    SpreadAt(g, f, offset);
    SpreadAt(g, f, At(g, i));
    ImageLength(g, Spread(g, f));
    FirstByteIsWrong(g, Spread(g, f), i);
  }

  lemma FirstByteIsWrong(g: Geometry, files: Files, i: u32)
    requires HasShape(g, files) && 0 < g.pieceLength && At(g, i) < g.Total() <= |Image(g, files)|
    requires g.Offset(i) + U32_RANGE <= At(g, i) && Image(g, files)[g.Offset(i)] != Image(g, files)[At(g, i)]
    ensures ReadPiece(g, files, i) != Some(Image(g, files)[At(g, i)..EndOf(g, i)])
  {
    ReadsAtOffset(g, files, i);
    var image := Image(g, files);
    var offset, n := g.Offset(i), PieceSize(g, i);
    assert image[offset..offset + n][0] == image[offset];
    assert image[At(g, i)..EndOf(g, i)][0] == image[At(g, i)];
  }

  /** A last piece whose end wraps is read at full length, past the end of the torrent. */
  lemma WrappedEndGoesWrong(g: Geometry, i: u32)
    requires At(g, i) < U32_RANGE && At(g, i) < g.Total() < At(g, i) + g.pieceLength && U32_RANGE <= At(g, i) + g.pieceLength
    ensures !ReadsRight(g, i)
  {
    OffsetIsExact(g, i);
    TimesIsProduct(i + 1, g.pieceLength);
    if i > 0 {
      TimesApart(0, i, g.pieceLength);
    }
    var files := Spread(g, p => 0);
    SpreadAt(g, p => 0, At(g, i));
    assert PieceSize(g, i) == g.pieceLength;
  }

  /** `read_piece` is right, for all contents of the files, on exactly these pieces. */
  lemma ReadableExactly(g: Geometry, i: u32)
    requires 0 < g.pieceLength && At(g, i) < g.Total()
    ensures ReadsRight(g, i) <==> Readable(g, i)
  {
    if Readable(g, i) {
      forall files | HasShape(g, files)
        ensures |Image(g, files)| >= g.Total() && ReadPiece(g, files, i) == Some(Image(g, files)[At(g, i)..EndOf(g, i)])
      {
        ImageLength(g, files);
        ReadPieceLaw(g, files, i);
      }
    } else if At(g, i) >= U32_RANGE {
      WrappedReadGoesWrong(g, i);
    } else {
      WrappedEndGoesWrong(g, i);
    }
  }

  ghost predicate OffsetsKeepApart(g: Geometry, n: nat)
    requires n <= U32_RANGE
  {
    forall i: nat, j: nat :: i < j < n ==>
      g.Offset(i) + g.pieceLength <= g.Offset(j) || g.Offset(j) + g.pieceLength <= g.Offset(i)
  }

  /** The first piece past 2^32, when there is one. */
  lemma {:induction false} FirstWrapped(g: Geometry, i: nat) returns (j: nat)
    requires U32_RANGE <= At(g, i)
    ensures 0 < j <= i && U32_RANGE <= At(g, j) < U32_RANGE + g.pieceLength
  {
    if U32_RANGE <= At(g, i - 1) {
      j := FirstWrapped(g, i - 1);
    } else {
      j := i;
    }
  }

  /** n pieces have stretches of their own on disk exactly when the last one starts below 2^32. */
  lemma OffsetsKeepApartExactly(g: Geometry, n: nat)
    requires 0 < g.pieceLength && 0 < n <= U32_RANGE
    ensures OffsetsKeepApart(g, n) <==> At(g, n - 1) < U32_RANGE
  {
    if At(g, n - 1) < U32_RANGE {
      forall i: nat, j: nat | i < j < n ensures g.Offset(i) + g.pieceLength <= g.Offset(j) {
        TimesApart(i, j, g.pieceLength);
        if j < n - 1 { TimesApart(j, n - 1, g.pieceLength); }
        OffsetIsExact(g, i);
        OffsetIsExact(g, j);
      }
    } else {
      var j := FirstWrapped(g, n - 1);
      TimesIsProduct(j, g.pieceLength);
      assert g.Offset(j) == At(g, j) - U32_RANGE;
      assert g.Offset(0) == 0;
    }
  }
}
