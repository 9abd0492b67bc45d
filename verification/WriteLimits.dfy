/** The exact set of pieces that `write_piece` (src/core/disk_io.rs) puts where they belong. */
module WriteLimits {
  import opened Bytes
  import opened Disk
  import opened PieceStore

  /** A whole piece replaces exactly its own stretch of the image, as far as there is room for it. */
  ghost predicate WriteIsRight(g: Geometry, files: Files, i: u32, data: seq<byte>)
    requires HasShape(g, files)
  {
    var r := WritePiece(g, files, i, data);
    r.Some? && HasShape(g, r.value) && Image(g, r.value) == WriteAt(Image(g, files), At(g, i), Fit(g, i, data))
  }

  ghost predicate WritesRight(g: Geometry, i: u32) {
    forall files, data :: HasShape(g, files) && |data| == g.pieceLength ==> WriteIsRight(g, files, i, data)
  }

  function Zero(p: nat): byte {
    0
  }

  function Zeros(g: Geometry): Files {
    Spread(g, Zero)
  }

  function Ones(n: nat): seq<byte> {
    seq(n, _ => 1)
  }

  ghost predicate AllZero(g: Geometry, files: Files)
    requires HasShape(g, files)
  {
    g.Total() <= |Image(g, files)| && forall x :: 0 <= x < g.Total() ==> Image(g, files)[x] == 0
  }

  lemma ZerosHaveShape(g: Geometry)
    ensures HasShape(g, Zeros(g)) && AllZero(g, Zeros(g))
  {
    ImageLength(g, Zeros(g));
    forall x | 0 <= x < g.Total() ensures Image(g, Zeros(g))[x] == 0 {
      SpreadAt(g, Zero, x);
    }
  }

  lemma NothingIsWritten(g: Geometry, i: u32)
    requires g.Offset(i) >= g.Total()
    ensures !WritesRight(g, i)
  {
    ZerosHaveShape(g);
    assert !WriteIsRight(g, Zeros(g), i, Ones(g.pieceLength));
  }

  lemma SeekShows(g: Geometry, files: Files, i: u32, data: seq<byte>)
    requires HasShape(g, files) && g.layout.MultiFile? && g.seek.AtPieceOffset? && g.Offset(i) == At(g, i) < g.Total()
    requires WriteIsRight(g, files, i, data)
    ensures WriteMulti(AtPieceOffset, g.layout.lengths, files, At(g, i), data)
      == WriteMulti(AtFileOffset, g.layout.lengths, files, At(g, i), data)
  {
    var lengths := g.layout.lengths;
    MultiFileWriteKeepsLengths(lengths, files, At(g, i), data);
    MultiFileWriteOverwrites(lengths, files, At(g, i), data);
    ImageDeterminesFiles(g, WritePiece(g, files, i, data).value, WriteMulti(AtFileOffset, lengths, files, At(g, i), data).value);
  }

  /** A piece the coded seek misplaces is not written right. */
  lemma SeekGoesWrong(g: Geometry, i: u32)
    requires g.layout.MultiFile? && g.seek.AtPieceOffset? && 0 < g.pieceLength
    requires At(g, i) < U32_RANGE && At(g, i) < g.Total()
    requires !CodedSeekIsRight(g.layout.lengths, At(g, i), g.pieceLength)
    ensures !WritesRight(g, i)
  {
    var files := Zeros(g);
    ZerosHaveShape(g);
    OffsetIsExact(g, i);
    CodedSeekIsRightExactly(g.layout.lengths, files, At(g, i), g.pieceLength);
    var data :| |data| == g.pieceLength &&
      WriteMulti(AtPieceOffset, g.layout.lengths, files, At(g, i), data)
      != WriteMulti(AtFileOffset, g.layout.lengths, files, At(g, i), data);
    if WriteIsRight(g, files, i, data) {
      SeekShows(g, files, i, data);
    }
  }

  /** The first byte of a multi-file write lands in the file the search finds, no further in than the offset. */
  lemma FirstByteLands(g: Geometry, files: Files, i: u32, data: seq<byte>) returns (k: nat, q: nat)
    requires HasShape(g, files) && g.layout.MultiFile? && g.Offset(i) < g.Total() && data != []
    ensures var r := WritePiece(g, files, i, data);
      r.Some? && |r.value| == |g.layout.lengths| && k < |r.value| && q < |r.value[k]| && r.value[k][q] == data[0]
    ensures k < |g.layout.lengths| && Start(g.layout.lengths, k) <= g.Offset(i) && q <= g.Offset(i)
  {
    var lengths, offset := g.layout.lengths, g.Offset(i);
    k := Locate(lengths, offset, 0);
    var fileOffset := offset - Start(lengths, k);
    q := if g.seek.AtPieceOffset? then offset else fileOffset;
    WriteStartsAt(g.seek, lengths, files, offset, data, k);
    WriteFromFirstFile(g.seek, lengths, files, k, fileOffset, offset, data, k);
  }

  lemma LandedByteShows(g: Geometry, files: Files, i: u32, k: nat, q: nat, r: Files)
    requires g.layout.MultiFile? && HasShape(g, files) && AllZero(g, files) && HasShape(g, r) && k < |r| && q < |r[k]|
    requires r[k][q] == 1 && Start(g.layout.lengths, k) + q < At(g, i)
    ensures Image(g, r) != WriteAt(Image(g, files), At(g, i), Fit(g, i, Ones(g.pieceLength)))
  {
    ImageLength(g, r);
    FlatAt(g.layout.lengths, r, 0, k, q);
    var p := Start(g.layout.lengths, k) + q;
    assert Image(g, r)[p] == 1 && Image(g, files)[p] == 0;
    assert WriteAt(Image(g, files), At(g, i), Fit(g, i, Ones(g.pieceLength)))[p] == 0;
  }

  lemma SingleFileShows(g: Geometry, i: u32, files: Files)
    requires 0 < g.pieceLength && g.layout.SingleFile? && g.Offset(i) < g.Total() && g.Offset(i) < At(g, i)
    requires HasShape(g, files) && AllZero(g, files)
    ensures !WriteIsRight(g, files, i, Ones(g.pieceLength))
  {
    var offset, data := g.Offset(i), Ones(g.pieceLength);
    assert WritePiece(g, files, i, data) == Some([WriteAt(files[0], offset, data)]);
    assert WriteAt(files[0], offset, data)[offset] == 1;
    assert Image(g, files)[offset] == 0;
    assert WriteAt(files[0], At(g, i), data)[offset] == 0;
  }

  /** Past 2^32 the wrapped offset puts the piece in an earlier place. */
  lemma WrappedWriteGoesWrong(g: Geometry, i: u32)
    requires 0 < g.pieceLength && U32_RANGE <= At(g, i) && g.Offset(i) < g.Total()
    ensures !WritesRight(g, i)
  {
    var files, data := Zeros(g), Ones(g.pieceLength);
    ZerosHaveShape(g);
    TimesIsProduct(i, g.pieceLength);
    assert g.Offset(i) + U32_RANGE <= At(g, i);
    match g.layout
    case SingleFile(_) =>
      SingleFileShows(g, i, files);
    case MultiFile(_) =>
      var k, q := FirstByteLands(g, files, i, data);
      if WriteIsRight(g, files, i, data) {
        LandedByteShows(g, files, i, k, q, WritePiece(g, files, i, data).value);
      }
  }

  /**
   * `write_piece` puts a piece, as far as there is room for it, where it belongs and nowhere else, for
   * all files and data, on exactly these pieces.
   */
  lemma WritableExactly(g: Geometry, i: u32)
    requires 0 < g.pieceLength
    ensures WritesRight(g, i) <==> Writable(g, i)
  {
    if Writable(g, i) {
      forall files, data | HasShape(g, files) && |data| == g.pieceLength ensures WriteIsRight(g, files, i, data) {
        WritePieceLaw(g, files, i, data);
      }
    } else if g.Offset(i) >= g.Total() {
      NothingIsWritten(g, i);
    } else if U32_RANGE <= At(g, i) {
      WrappedWriteGoesWrong(g, i);
    } else {
      OffsetIsExact(g, i);
      SeekGoesWrong(g, i);
    }
  }

  /** There is room on disk for the whole piece: only several files can be too short for it. */
  predicate HasRoom(g: Geometry, i: nat) {
    g.layout.MultiFile? ==> At(g, i) + g.pieceLength <= g.Total()
  }

  /** All of the data replaces its own stretch of the image: none of it is dropped. */
  ghost predicate WholeWriteIsRight(g: Geometry, files: Files, i: u32, data: seq<byte>)
    requires HasShape(g, files)
  {
    var r := WritePiece(g, files, i, data);
    r.Some? && HasShape(g, r.value) && Image(g, r.value) == WriteAt(Image(g, files), At(g, i), data)
  }

  ghost predicate WritesWhole(g: Geometry, i: u32) {
    forall files, data :: HasShape(g, files) && |data| == g.pieceLength ==> WholeWriteIsRight(g, files, i, data)
  }

  lemma RoomFitsAll(g: Geometry, i: u32, data: seq<byte>)
    requires HasRoom(g, i) && |data| == g.pieceLength
    ensures Fit(g, i, data) == data
  {
    assert data[..|data|] == data;
  }

  /** Several files of fixed length cannot take a piece that runs past their end. */
  lemma NoRoomForPiece(g: Geometry, i: u32)
    requires !HasRoom(g, i) && 0 < g.pieceLength
    ensures !WritesWhole(g, i)
  {
    var files, data := Zeros(g), Ones(g.pieceLength);
    ZerosHaveShape(g);
    if WholeWriteIsRight(g, files, i, data) {
      ImageLength(g, WritePiece(g, files, i, data).value);
      ImageLength(g, files);
      assert false;
    }
  }

  /** `write_piece` puts all of a piece where it belongs, for all files and data, on exactly these pieces. */
  lemma WholePieceLandsExactly(g: Geometry, i: u32)
    requires 0 < g.pieceLength
    ensures WritesWhole(g, i) <==> Writable(g, i) && HasRoom(g, i)
  {
    WritableExactly(g, i);
    if !HasRoom(g, i) {
      NoRoomForPiece(g, i);
    } else {
      forall files, data | HasShape(g, files) && |data| == g.pieceLength
        ensures WholeWriteIsRight(g, files, i, data) <==> WriteIsRight(g, files, i, data)
      {
        RoomFitsAll(g, i, data);
      }
      assert WritesWhole(g, i) <==> WritesRight(g, i);
    }
  }
}
