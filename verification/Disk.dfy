/**
 * The place of pieces on disk (src/core/disk_io.rs), as functions on the contents of the files.
 *
 * The reference is one flat run of bytes: the files of the torrent one after the other, in list
 * order (BEP 3, section "info dictionary").
 */
module Disk {
  import opened Bytes

  datatype Layout =
    | SingleFile(length: nat)
    | MultiFile(lengths: seq<nat>)

  /**
   * Where a multi-file write seeks in each file it touches. The code seeks to the offset of the
   * piece in the torrent; the read side seeks to the offset inside the file.
   */
  datatype SeekRule = AtPieceOffset | AtFileOffset

  datatype Geometry = Geometry(layout: Layout, pieceLength: u32, seek: SeekRule) {
    function Total(): nat {
      match layout
      case SingleFile(length) => length
      case MultiFile(lengths) => Start(lengths, |lengths|)
    }

    /** The offset of a piece as the code computes it, in u32. */
    function Offset(i: u32): nat {
      Wrap32(i * pieceLength)
    }
  }

  type Files = seq<seq<byte>>

  // ------------------------------------------------------------ one file

  /** Byte x of a file after `data` is written at `pos`: any gap before `pos` reads as zero. */
  function ByteAfter(file: seq<byte>, pos: nat, data: seq<byte>, x: nat): byte {
    if pos <= x < pos + |data| then data[x - pos] else if x < |file| then file[x] else 0
  }

  /** Seek to `pos`, then write all of `data`; the file grows when needed. */
  function WriteAt(file: seq<byte>, pos: nat, data: seq<byte>): (r: seq<byte>)
    ensures |r| == if data == [] then |file| else Max(|file|, pos + |data|)
    ensures forall x :: 0 <= x < |r| ==> r[x] == ByteAfter(file, pos, data, x)
  {
    if data == [] then file else seq(Max(|file|, pos + |data|), x requires 0 <= x => ByteAfter(file, pos, data, x))
  }

  /** The file is cut or filled up with zeros to `pos`, then come the data, then what the file had behind them. */
  lemma WriteAtIsOverwrite(file: seq<byte>, pos: nat, data: seq<byte>)
    ensures var zeros := seq(pos - Min(pos, |file|), _ => 0);
      WriteAt(file, pos, data) ==
        if data == [] then file
        else file[..Min(pos, |file|)] + zeros + data + file[Min(pos + |data|, |file|)..]
  {
  }

  // ---------------------------------------------------- files side by side

  /** Bytes in the files before file k. */
  function Start(lengths: seq<nat>, k: nat): nat
    requires k <= |lengths|
  {
    if k == 0 then 0 else Start(lengths, k - 1) + lengths[k - 1]
  }

  lemma {:induction false} StartGrows(lengths: seq<nat>, j: nat, k: nat)
    requires j <= k <= |lengths|
    ensures Start(lengths, j) <= Start(lengths, k)
  {
    if j < k {
      StartGrows(lengths, j, k - 1);
    }
  }

  /** Every file holds at least its declared bytes. */
  ghost predicate Sized(lengths: seq<nat>, files: Files) {
    |files| == |lengths| && forall k {:trigger files[k]} :: 0 <= k < |lengths| ==> lengths[k] <= |files[k]|
  }

  /** The declared bytes of the files from file k on, one after the other. */
  ghost function FlatFrom(lengths: seq<nat>, files: Files, k: nat): seq<byte>
    requires Sized(lengths, files) && k <= |lengths|
    decreases |lengths| - k
  {
    if k == |lengths| then [] else files[k][..lengths[k]] + FlatFrom(lengths, files, k + 1)
  }

  lemma {:induction false} FlatLength(lengths: seq<nat>, files: Files, k: nat)
    requires Sized(lengths, files) && k <= |lengths|
    ensures Start(lengths, k) + |FlatFrom(lengths, files, k)| == Start(lengths, |lengths|)
    decreases |lengths| - k
  {
    if k < |lengths| {
      assert Start(lengths, k + 1) == Start(lengths, k) + lengths[k];
      FlatLength(lengths, files, k + 1);
    }
  }

  /** The flat run looks only at the files from k on, and only at their declared bytes. */
  lemma {:induction false} FlatDependsOnTail(lengths: seq<nat>, files: Files, files': Files, k: nat)
    requires Sized(lengths, files) && Sized(lengths, files') && k <= |lengths|
    requires forall j :: k <= j < |lengths| ==> files[j] == files'[j]
    ensures FlatFrom(lengths, files, k) == FlatFrom(lengths, files', k)
    decreases |lengths| - k
  {
    if k < |lengths| {
      FlatDependsOnTail(lengths, files, files', k + 1);
    }
  }

  /** Byte x of file j is byte Start(j) + x of the flat run. */
  lemma {:induction false} FlatAt(lengths: seq<nat>, files: Files, k: nat, j: nat, x: nat)
    requires Sized(lengths, files) && k <= j < |lengths| && x < lengths[j]
    ensures Start(lengths, k) <= Start(lengths, j)
    ensures var flat := FlatFrom(lengths, files, k);
      Start(lengths, j) + x - Start(lengths, k) < |flat| && flat[Start(lengths, j) + x - Start(lengths, k)] == files[j][x]
    decreases j - k
  {
    if k < j {
      FlatAt(lengths, files, k + 1, j, x);
    }
  }

  /** Contents with the same flat run and no surplus bytes are the same. */
  lemma FlatDeterminesFiles(lengths: seq<nat>, files: Files, files': Files)
    requires Sized(lengths, files) && Sized(lengths, files')
    requires forall j :: 0 <= j < |lengths| ==> |files[j]| == lengths[j] && |files'[j]| == lengths[j]
    requires FlatFrom(lengths, files, 0) == FlatFrom(lengths, files', 0)
    ensures files == files'
  {
    forall j | 0 <= j < |lengths| ensures files[j] == files'[j] {
      forall x | 0 <= x < lengths[j] ensures files[j][x] == files'[j][x] {
        FlatAt(lengths, files, 0, j, x);
        FlatAt(lengths, files', 0, j, x);
      }
    }
  }

  // --------------------------------------------------------------- search

  /** The first file, from file k on, that ends after `offset`; the number of files if none does. */
  function Locate(lengths: seq<nat>, offset: nat, k: nat): (r: nat)
    requires k <= |lengths| && Start(lengths, k) <= offset
    ensures k <= r <= |lengths| && Start(lengths, r) <= offset
    ensures r < |lengths| ==> offset < Start(lengths, r) + lengths[r]
    ensures r == |lengths| <==> Start(lengths, |lengths|) <= offset
    decreases |lengths| - k
  {
    if k < |lengths| && Start(lengths, k + 1) <= offset then Locate(lengths, offset, k + 1)
    else
      StartGrowsAbove(lengths, k, offset);
      k
  }

  lemma StartGrowsAbove(lengths: seq<nat>, k: nat, offset: nat)
    requires k <= |lengths|
    ensures k < |lengths| && offset < Start(lengths, k + 1) ==> offset < Start(lengths, |lengths|)
  {
    if k < |lengths| {
      StartGrows(lengths, k + 1, |lengths|);
    }
  }

  // ---------------------------------------------------------- multi-file write

  /** Hands `data` out over the files from file k on, starting `fileOffset` bytes into it. */
  function WriteFrom(seek: SeekRule, lengths: seq<nat>, files: Files, k: nat, fileOffset: nat, pieceOffset: nat,
                     data: seq<byte>): (r: Files)
    requires |files| == |lengths| && k <= |lengths|
    requires k < |lengths| ==> fileOffset <= lengths[k]
    ensures |r| == |files|
    ensures forall j :: 0 <= j < k ==> r[j] == files[j]
    ensures forall j :: 0 <= j < |files| ==> |files[j]| <= |r[j]|
    decreases |lengths| - k
  {
    if data == [] || k == |lengths| then files
    else
      var n := Min(|data|, lengths[k] - fileOffset);
      var position := if seek.AtPieceOffset? then pieceOffset else fileOffset;
      WriteFrom(seek, lengths, files[k := WriteAt(files[k], position, data[..n])], k + 1, 0, pieceOffset, data[n..])
  }

  /** How much of n bytes of data lies before a place `distance` bytes after their start. */
  function Clip(distance: int, n: nat): nat {
    if distance < 0 then 0 else Min(distance, n)
  }

  /** The chunk of the data that falls into file j, when the data starts `start` bytes into the torrent. */
  function Chunk(lengths: seq<nat>, start: nat, data: seq<byte>, j: nat): seq<byte>
    requires j < |lengths|
  {
    data[Clip(Start(lengths, j) - start, |data|)..Clip(Start(lengths, j + 1) - start, |data|)]
  }

  /** Data to hand out over the files, `firstOffset` bytes into file `first` and on from there. */
  datatype Handout = Handout(
    seek: SeekRule,
    lengths: seq<nat>,
    first: nat,
    firstOffset: nat,
    pieceOffset: nat,
    data: seq<byte>)
  {
    predicate Valid() {
      first < |lengths| && firstOffset <= lengths[first]
    }

    /** The place of the data in the torrent. */
    function Begin(): nat
      requires first <= |lengths|
    {
      Start(lengths, first) + firstOffset
    }

    function Position(j: nat): nat {
      if seek.AtPieceOffset? then pieceOffset else if j == first then firstOffset else 0
    }

    /** The first n bytes of the data, handed out the same way. */
    function Upto(n: nat): Handout
      requires n <= |data|
    {
      this.(data := data[..n])
    }
  }

  /** What the distribution does to file j, on its own: it writes the file's chunk. */
  function FileAfter(h: Handout, files: Files, j: nat): seq<byte>
    requires |files| == |h.lengths| && h.first <= |h.lengths| && j < |h.lengths|
  {
    WriteAt(files[j], h.Position(j), Chunk(h.lengths, h.Begin(), h.data, j))
  }

  lemma ChunkAfterFirst(h: Handout, rest: Handout, n: nat, j: nat)
    requires h.Valid() && h.first < j < |h.lengths| && n == Min(|h.data|, h.lengths[h.first] - h.firstOffset)
    requires rest == Handout(h.seek, h.lengths, h.first + 1, 0, h.pieceOffset, h.data[n..])
    ensures Chunk(rest.lengths, rest.Begin(), rest.data, j) == Chunk(h.lengths, h.Begin(), h.data, j)
  {
    assert rest.Begin() == Start(h.lengths, h.first) + h.lengths[h.first];
    StartGrows(h.lengths, h.first + 1, j);
    DroppedSlice(h.data, n, Clip(Start(h.lengths, j) - h.Begin(), |h.data|), Clip(Start(h.lengths, j + 1) - h.Begin(), |h.data|));
  }

  lemma DroppedSlice(data: seq<byte>, n: nat, a: nat, b: nat)
    requires n <= |data| && (n <= a <= b <= |data| || a == b <= |data|)
    ensures n <= a ==> data[n..][a - n..b - n] == data[a..b]
    ensures a == b ==> data[a..b] == []
  {
  }

  lemma ChunkUpToFirst(lengths: seq<nat>, k: nat, fileOffset: nat, data: seq<byte>, j: nat)
    requires j <= k < |lengths| && fileOffset <= lengths[k]
    ensures Chunk(lengths, Start(lengths, k) + fileOffset, data, j)
      == if j == k then data[..Min(|data|, lengths[k] - fileOffset)] else []
  {
    if j < k {
      StartGrows(lengths, j + 1, k);
    }
  }

  /** A file's outcome depends on its chunk, its position and what it held, and on nothing else. */
  lemma SameOutcome(h: Handout, h': Handout, files: Files, files': Files, j: nat)
    requires h.first <= |h.lengths| == |files| && h'.first <= |h'.lengths| == |files'| && j < |files| && j < |files'|
    requires Chunk(h.lengths, h.Begin(), h.data, j) == Chunk(h'.lengths, h'.Begin(), h'.data, j)
    requires h.Position(j) == h'.Position(j) && files[j] == files'[j]
    ensures FileAfter(h, files, j) == FileAfter(h', files', j)
  {
  }

  lemma WrittenFile(h: Handout, files: Files, j: nat, chunk: seq<byte>)
    requires h.first <= |h.lengths| == |files| && j < |files| && chunk == Chunk(h.lengths, h.Begin(), h.data, j)
    ensures FileAfter(h, files, j) == WriteAt(files[j], h.Position(j), chunk)
  {
  }

  /** What no data leaves of file j. */
  lemma NothingForFile(h: Handout, was: Files, j: nat)
    requires h.first <= |h.lengths| == |was| && j < |h.lengths| && h.data == []
    ensures FileAfter(h, was, j) == was[j]
  {
    assert Chunk(h.lengths, h.Begin(), h.data, j) == [];
  }

  /** Files before the first stay as they are; the first gets the beginning of the data. */
  lemma FilesUpToFirst(h: Handout, files: Files, j: nat)
    requires h.Valid() && |files| == |h.lengths| && j <= h.first
    ensures FileAfter(h, files, j) ==
      if j == h.first then WriteAt(files[j], h.Position(j), h.data[..Min(|h.data|, h.lengths[j] - h.firstOffset)])
      else files[j]
  {
    ChunkUpToFirst(h.lengths, h.first, h.firstOffset, h.data, j);
    WrittenFile(h, files, j, if j == h.first then h.data[..Min(|h.data|, h.lengths[j] - h.firstOffset)] else []);
  }

  /** The recursive distribution gives each file its own chunk and nothing else. */
  lemma {:induction false} WriteFromByFile(seek: SeekRule, lengths: seq<nat>, files: Files, k: nat, fileOffset: nat,
                                           pieceOffset: nat, data: seq<byte>, j: nat)
    requires |files| == |lengths| && k < |lengths| && j < |lengths| && fileOffset <= lengths[k]
    ensures WriteFrom(seek, lengths, files, k, fileOffset, pieceOffset, data)[j]
      == FileAfter(Handout(seek, lengths, k, fileOffset, pieceOffset, data), files, j)
    decreases |lengths| - k
  {
    var h := Handout(seek, lengths, k, fileOffset, pieceOffset, data);
    var n := Min(|data|, lengths[k] - fileOffset);
    if data == [] {
      NothingForFile(h, files, j);
    } else if j <= k {
      FilesUpToFirst(h, files, j);
      WriteFromFirstFile(seek, lengths, files, k, fileOffset, pieceOffset, data, j);
    } else {
      var files1 := files[k := WriteAt(files[k], h.Position(k), data[..n])];
      WriteFromByFile(seek, lengths, files1, k + 1, 0, pieceOffset, data[n..], j);
      FileAfterFirst(h, Handout(seek, lengths, k + 1, 0, pieceOffset, data[n..]), files, files1, n, j);
    }
  }

  lemma WriteFromFirstFile(seek: SeekRule, lengths: seq<nat>, files: Files, k: nat, fileOffset: nat, pieceOffset: nat,
                           data: seq<byte>, j: nat)
    requires |files| == |lengths| && j <= k < |lengths| && fileOffset <= lengths[k] && data != []
    ensures var position := if seek.AtPieceOffset? then pieceOffset else fileOffset;
      WriteFrom(seek, lengths, files, k, fileOffset, pieceOffset, data)[j]
      == if j == k then WriteAt(files[k], position, data[..Min(|data|, lengths[k] - fileOffset)]) else files[j]
  {
    var n := Min(|data|, lengths[k] - fileOffset);
    var position := if seek.AtPieceOffset? then pieceOffset else fileOffset;
    var files1 := files[k := WriteAt(files[k], position, data[..n])];
    assert WriteFrom(seek, lengths, files, k, fileOffset, pieceOffset, data)
        == WriteFrom(seek, lengths, files1, k + 1, 0, pieceOffset, data[n..]);
  }

  lemma FileAfterFirst(h: Handout, rest: Handout, files: Files, files1: Files, n: nat, j: nat)
    requires h.Valid() && |files| == |files1| == |h.lengths| && h.first < j < |h.lengths| && files1[j] == files[j]
    requires n == Min(|h.data|, h.lengths[h.first] - h.firstOffset)
    requires rest == Handout(h.seek, h.lengths, h.first + 1, 0, h.pieceOffset, h.data[n..])
    ensures FileAfter(rest, files1, j) == FileAfter(h, files, j)
  {
    ChunkAfterFirst(h, rest, n, j);
    SameOutcome(rest, h, files1, files, j);
  }

  // --------------------------------------------------- the distribution loop

  /** The first k files replaced by what `after` gives for them. */
  ghost function Replaced(was: Files, after: nat -> seq<byte>, k: nat): (r: Files)
    requires k <= |was|
    ensures |r| == |was|
  {
    if k == 0 then was else Replaced(was, after, k - 1)[k - 1 := after(k - 1)]
  }

  lemma {:induction false} ReplacedAt(was: Files, after: nat -> seq<byte>, k: nat, j: nat)
    requires k <= |was| && j < |was|
    ensures Replaced(was, after, k)[j] == if j < k then after(j) else was[j]
  {
    if k > 0 {
      ReplacedAt(was, after, k - 1, j);
    }
  }

  lemma {:induction false} ReplacedStays(was: Files, after: nat -> seq<byte>, k: nat, m: nat)
    requires k <= m <= |was| && forall j: nat :: k <= j < m ==> after(j) == was[j]
    ensures Replaced(was, after, m) == Replaced(was, after, k)
  {
    if k < m {
      ReplacedStays(was, after, k, m - 1);
      ReplacedAt(was, after, m - 1, m - 1);
    }
  }

  lemma {:induction false} SameReplaced(was: Files, a: nat -> seq<byte>, b: nat -> seq<byte>, k: nat)
    requires k <= |was| && forall j: nat :: j < k ==> a(j) == b(j)
    ensures Replaced(was, a, k) == Replaced(was, b, k)
  {
    if k > 0 {
      SameReplaced(was, a, b, k - 1);
    }
  }

  /** What the distribution leaves in each file. */
  ghost function Outcome(h: Handout, was: Files): nat -> seq<byte>
    requires h.first <= |h.lengths| == |was|
  {
    (j: nat) => if j < |was| then FileAfter(h, was, j) else []
  }

  /** In the middle of the distribution: files before k have their chunk, files from k on are untouched. */
  ghost function Midway(h: Handout, was: Files, k: nat): (r: Files)
    requires h.first <= |h.lengths| == |was| && k <= |was|
    ensures |r| == |was|
  {
    Replaced(was, Outcome(h, was), k)
  }

  /** All files after the distribution. */
  ghost function FilesAfter(h: Handout, was: Files): (r: Files)
    requires h.first <= |h.lengths| == |was|
    ensures |r| == |was|
  {
    Midway(h, was, |was|)
  }

  /** Where the loop stands: `done` bytes handed out, the next one goes `offset` bytes into file k. */
  ghost predicate StandsAt(h: Handout, k: nat, offset: nat, done: nat) {
    && h.Valid() && h.first <= k <= |h.lengths|
    && offset == (if k == h.first then h.firstOffset else 0)
    && done == Clip(Start(h.lengths, k) - h.Begin(), |h.data|)
  }

  /** The loop stands there, and the files are as they should be by then. */
  ghost predicate WritesOn(h: Handout, was: Files, now: Files, k: nat, offset: nat, done: nat) {
    StandsAt(h, k, offset, done) && |was| == |h.lengths| && now == Midway(h, was, k)
  }

  lemma NoneDoneYet(h: Handout, was: Files)
    requires h.Valid() && |was| == |h.lengths|
    ensures WritesOn(h, was, was, h.first, h.firstOffset, 0)
  {
    forall j: nat | j < h.first ensures Outcome(h, was)(j) == was[j] {
      FilesUpToFirst(h, was, j);
    }
    ReplacedStays(was, Outcome(h, was), 0, h.first);
  }

  lemma PlaceOf(h: Handout, k: nat, offset: nat, done: nat)
    requires StandsAt(h, k, offset, done) && k < |h.lengths| && done < |h.data|
    ensures Start(h.lengths, k) + offset == h.Begin() + done
    ensures Start(h.lengths, k + 1) == Start(h.lengths, k) + h.lengths[k]
  {
    if h.first < k {
      StartGrows(h.lengths, h.first + 1, k);
    }
  }

  /** The length of the chunk for file k. */
  function TurnLength(h: Handout, k: nat, offset: nat, done: nat): nat
    requires k < |h.lengths| && offset <= h.lengths[k] && done <= |h.data|
  {
    Min(|h.data| - done, h.lengths[k] - offset)
  }

  lemma ChunkAt(h: Handout, k: nat, offset: nat, done: nat, m: nat)
    requires StandsAt(h, k, offset, done) && k < |h.lengths| && done < |h.data|
    requires offset <= h.lengths[k] && m == TurnLength(h, k, offset, done)
    ensures Chunk(h.lengths, h.Begin(), h.data, k) == h.data[done..done + m]
    ensures StandsAt(h, k + 1, 0, done + m)
  {
    PlaceOf(h, k, offset, done);
  }

  /** One turn of the loop that works. */
  lemma OneMoreDone(h: Handout, was: Files, now: Files, next: Files, k: nat, offset: nat, done: nat, m: nat)
    requires WritesOn(h, was, now, k, offset, done)
    requires k < |h.lengths| && offset <= h.lengths[k] && done < |h.data| && m == TurnLength(h, k, offset, done)
    requires next == now[k := WriteAt(now[k], h.Position(k), h.data[done..done + m])]
    ensures WritesOn(h, was, next, k + 1, 0, done + m)
  {
    ChunkAt(h, k, offset, done, m);
    WrittenFile(h, was, k, h.data[done..done + m]);
    ReplacedAt(was, Outcome(h, was), k, k);
  }

  lemma ChunkOfPrefix(lengths: seq<nat>, start: nat, data: seq<byte>, n: nat, j: nat)
    requires j < |lengths| && n <= |data|
    ensures Start(lengths, j + 1) <= start + n ==> Chunk(lengths, start, data[..n], j) == Chunk(lengths, start, data, j)
    ensures start + n <= Start(lengths, j) ==> Chunk(lengths, start, data[..n], j) == []
  {
  }

  /** A file done before the distribution stopped, n bytes in. */
  lemma StoppedAfterFile(h: Handout, was: Files, n: nat, j: nat)
    requires h.first <= |h.lengths| == |was| && n <= |h.data| && j < |h.lengths|
    requires Start(h.lengths, j + 1) <= h.Begin() + n || n == |h.data|
    ensures FileAfter(h.Upto(n), was, j) == FileAfter(h, was, j)
  {
    assert h.data[..|h.data|] == h.data;
    ChunkOfPrefix(h.lengths, h.Begin(), h.data, n, j);
    SameOutcome(h.Upto(n), h, was, was, j);
  }

  /** A file not reached when the distribution stopped. */
  lemma StoppedBeforeFile(h: Handout, was: Files, n: nat, j: nat)
    requires h.first <= |h.lengths| == |was| && n <= |h.data| && j < |h.lengths|
    requires h.Begin() + n <= Start(h.lengths, j)
    ensures FileAfter(h.Upto(n), was, j) == was[j]
  {
    ChunkOfPrefix(h.lengths, h.Begin(), h.data, n, j);
  }

  lemma UntouchedAtEnd(h: Handout, was: Files, k: nat, offset: nat, done: nat, j: nat)
    requires StandsAt(h, k, offset, done) && |was| == |h.lengths| && done == |h.data| && k <= j < |h.lengths|
    ensures FileAfter(h, was, j) == was[j]
  {
    if h.data == [] {
      NothingForFile(h, was, j);
    } else {
      StartGrows(h.lengths, k, j);
      StoppedBeforeFile(h, was, |h.data|, j);
      StoppedAfterFile(h, was, |h.data|, j);
    }
  }

  /** The loop is over with all data handed out, or past the last file. */
  lemma DistributionEnds(h: Handout, was: Files, now: Files, k: nat, offset: nat, done: nat)
    requires WritesOn(h, was, now, k, offset, done) && (done == |h.data| || k == |h.lengths|)
    ensures now == FilesAfter(h, was)
  {
    forall j: nat | k <= j < |was| ensures Outcome(h, was)(j) == was[j] {
      UntouchedAtEnd(h, was, k, offset, done, j);
    }
    ReplacedStays(was, Outcome(h, was), k, |was|);
  }

  lemma FailingChunk(h: Handout, k: nat, offset: nat, done: nat, part: nat)
    requires StandsAt(h, k, offset, done) && k < |h.lengths| && done < |h.data|
    requires offset <= h.lengths[k] && part <= TurnLength(h, k, offset, done)
    ensures Start(h.lengths, k) <= h.Begin() + done + part <= Start(h.lengths, k + 1)
    ensures Chunk(h.lengths, h.Begin(), h.data[..done + part], k) == h.data[done..done + part]
  {
    PlaceOf(h, k, offset, done);
  }

  lemma DoneBeforeFailure(h: Handout, was: Files, k: nat, n: nat, j: nat)
    requires h.Valid() && |was| == |h.lengths| && j < k < |h.lengths| && n <= |h.data|
    requires Start(h.lengths, k) <= h.Begin() + n
    ensures FileAfter(h.Upto(n), was, j) == FileAfter(h, was, j)
  {
    StartGrows(h.lengths, j + 1, k);
    StoppedAfterFile(h, was, n, j);
  }

  lemma NotReachedByFailure(h: Handout, was: Files, k: nat, n: nat, j: nat)
    requires h.Valid() && |was| == |h.lengths| && k < j < |h.lengths| && n <= |h.data|
    requires h.Begin() + n <= Start(h.lengths, k + 1)
    ensures FileAfter(h.Upto(n), was, j) == was[j]
  {
    StartGrows(h.lengths, k + 1, j);
    StoppedBeforeFile(h, was, n, j);
  }

  lemma DoneAlike(h: Handout, was: Files, k: nat, n: nat)
    requires h.Valid() && |was| == |h.lengths| && k < |was| && n <= |h.data| && Start(h.lengths, k) <= h.Begin() + n
    ensures Midway(h.Upto(n), was, k) == Midway(h, was, k)
  {
    var part := h.Upto(n);
    forall j: nat | j < k ensures Outcome(part, was)(j) == Outcome(h, was)(j) {
      DoneBeforeFailure(h, was, k, n, j);
    }
    SameReplaced(was, Outcome(part, was), Outcome(h, was), k);
  }

  lemma RestSpared(h: Handout, was: Files, k: nat, n: nat)
    requires h.Valid() && |was| == |h.lengths| && k < |was| && n <= |h.data| && h.Begin() + n <= Start(h.lengths, k + 1)
    ensures Midway(h.Upto(n), was, k + 1) == FilesAfter(h.Upto(n), was)
  {
    var part := h.Upto(n);
    forall j: nat | k + 1 <= j < |was| ensures Outcome(part, was)(j) == was[j] {
      NotReachedByFailure(h, was, k, n, j);
    }
    ReplacedStays(was, Outcome(part, was), k + 1, |was|);
  }

  /** The data handed out, n bytes of it, ends inside file k. */
  lemma StopsInFile(h: Handout, was: Files, now: Files, next: Files, k: nat, n: nat)
    requires h.Valid() && |was| == |h.lengths| && k < |was| && n <= |h.data| && now == Midway(h, was, k)
    requires Start(h.lengths, k) <= h.Begin() + n <= Start(h.lengths, k + 1)
    requires next == now[k := FileAfter(h.Upto(n), was, k)]
    ensures next == FilesAfter(h.Upto(n), was)
  {
    DoneAlike(h, was, k, n);
    RestSpared(h, was, k, n);
  }

  /** The file that the write failed in: the part of its chunk that was written. */
  lemma FailedFile(h: Handout, was: Files, k: nat, offset: nat, done: nat, part: nat)
    requires StandsAt(h, k, offset, done) && |was| == |h.lengths| && k < |was| && offset <= h.lengths[k]
    requires done < |h.data| && part <= TurnLength(h, k, offset, done)
    ensures done + part <= |h.data|
    ensures FileAfter(h.Upto(done + part), was, k) == WriteAt(was[k], h.Position(k), h.data[done..done + part])
  {
    FailingChunk(h, k, offset, done, part);
    WrittenFile(h.Upto(done + part), was, k, h.data[done..done + part]);
  }

  /** One turn of the loop that fails, `part` bytes into file k. */
  lemma DistributionFails(h: Handout, was: Files, now: Files, next: Files, k: nat, offset: nat, done: nat, part: nat)
    requires WritesOn(h, was, now, k, offset, done)
    requires k < |h.lengths| && offset <= h.lengths[k] && done < |h.data| && part <= TurnLength(h, k, offset, done)
    requires next == now[k := WriteAt(now[k], h.Position(k), h.data[done..done + part])]
    ensures next == FilesAfter(h.Upto(done + part), was)
  {
    ReplacedAt(was, Outcome(h, was), k, k);
    FailedFile(h, was, k, offset, done, part);
    FailingChunk(h, k, offset, done, part);
    StopsInFile(h, was, now, next, k, done + part);
  }

  /** Writing over a + b is writing what fits into a, then the rest from the start of b. */
  lemma WriteSplits(a: seq<byte>, b: seq<byte>, file: seq<byte>, pos: nat, data: seq<byte>, n: nat, rest: nat)
    requires a <= file && pos <= |a|
    requires n == Min(|data|, |a| - pos) && rest == Min(|data| - n, |b|)
    ensures WriteAt(file, pos, data[..n])[..|a|] + WriteAt(b, 0, data[n..][..rest])
      == WriteAt(a + b, pos, data[..Min(|data|, |a + b| - pos)])
  {
    var left := WriteAt(file, pos, data[..n])[..|a|];
    var right := WriteAt(b, 0, data[n..][..rest]);
    assert Min(|data|, |a + b| - pos) == n + rest;
    var whole := WriteAt(a + b, pos, data[..n + rest]);
    assert |left + right| == |whole|;
    forall x | 0 <= x < |whole| ensures (left + right)[x] == whole[x] {
      assert whole[x] == ByteAfter(a + b, pos, data[..n + rest], x);
      if x < |a| {
        assert left[x] == ByteAfter(file, pos, data[..n], x);
      } else {
        assert right[x - |a|] == ByteAfter(b, 0, data[n..][..rest], x - |a|);
      }
    }
  }

  lemma {:induction false} WriteFromKeepsLengths(lengths: seq<nat>, files: Files, k: nat, fileOffset: nat,
                                                 pieceOffset: nat, data: seq<byte>, j: nat)
    requires Sized(lengths, files) && k <= |lengths| && j < |lengths|
    requires k < |lengths| ==> fileOffset <= lengths[k]
    ensures |WriteFrom(AtFileOffset, lengths, files, k, fileOffset, pieceOffset, data)[j]| == |files[j]|
    decreases |lengths| - k
  {
    if data != [] && k < |lengths| {
      var n := Min(|data|, lengths[k] - fileOffset);
      var files1 := files[k := WriteAt(files[k], fileOffset, data[..n])];
      WriteFromKeepsLengths(lengths, files1, k + 1, 0, pieceOffset, data[n..], j);
    }
  }

  lemma OverwriteOneMoreFile(lengths: seq<nat>, files: Files, r: Files, k: nat, fileOffset: nat, data: seq<byte>, n: nat)
    requires Sized(lengths, files) && Sized(lengths, r) && k < |lengths| && fileOffset <= lengths[k]
    requires n == Min(|data|, lengths[k] - fileOffset)
    requires r[k] == WriteAt(files[k], fileOffset, data[..n])
    requires var b := FlatFrom(lengths, files, k + 1);
      FlatFrom(lengths, r, k + 1) == WriteAt(b, 0, data[n..][..Min(|data| - n, |b|)])
    ensures var flat := FlatFrom(lengths, files, k);
      fileOffset <= |flat| &&
      FlatFrom(lengths, r, k) == WriteAt(flat, fileOffset, data[..Min(|data|, |flat| - fileOffset)])
  {
    var a, b := files[k][..lengths[k]], FlatFrom(lengths, files, k + 1);
    WriteSplits(a, b, files[k], fileOffset, data, n, Min(|data| - n, |b|));
  }

  /**
   * With the seek inside the file, distributing the chunks overwrites one stretch of the flat run;
   * bytes past the end of the last file are dropped.
   */
  lemma {:induction false} WriteFromOverwrites(lengths: seq<nat>, files: Files, k: nat, fileOffset: nat,
                                               pieceOffset: nat, data: seq<byte>)
    requires Sized(lengths, files) && k <= |lengths|
    requires if k < |lengths| then fileOffset <= lengths[k] else fileOffset == 0
    ensures var flat := FlatFrom(lengths, files, k);
      && fileOffset <= |flat|
      && FlatFrom(lengths, WriteFrom(AtFileOffset, lengths, files, k, fileOffset, pieceOffset, data), k)
         == WriteAt(flat, fileOffset, data[..Min(|data|, |flat| - fileOffset)])
    decreases |lengths| - k
  {
    if data != [] && k < |lengths| {
      var n := Min(|data|, lengths[k] - fileOffset);
      var files1 := files[k := WriteAt(files[k], fileOffset, data[..n])];
      var r := WriteFrom(AtFileOffset, lengths, files1, k + 1, 0, pieceOffset, data[n..]);
      WriteFromOverwrites(lengths, files1, k + 1, 0, pieceOffset, data[n..]);
      FlatDependsOnTail(lengths, files, files1, k + 1);
      OverwriteOneMoreFile(lengths, files, r, k, fileOffset, data, n);
    }
  }

  ghost function Flat(lengths: seq<nat>, files: Files): seq<byte>
    requires Sized(lengths, files)
  {
    FlatFrom(lengths, files, 0)
  }

  lemma WriteBehindPrefix(a: seq<byte>, b: seq<byte>, written: seq<byte>, pos: nat, data: seq<byte>, x: seq<byte>,
                          y: seq<byte>)
    requires written == WriteAt(b, pos, data) && x == a + b && y == a + written
    ensures y == WriteAt(x, |a| + pos, data)
  {
  }

  lemma FlatStep(lengths: seq<nat>, files: Files, k: nat)
    requires Sized(lengths, files) && k < |lengths|
    ensures FlatFrom(lengths, files, k) == files[k][..lengths[k]] + FlatFrom(lengths, files, k + 1)
  {
  }

  lemma LiftWriteOverFile(lengths: seq<nat>, files: Files, r: Files, j: nat, pos: nat, data: seq<byte>)
    requires Sized(lengths, files) && Sized(lengths, r) && j < |lengths| && r[j] == files[j]
    requires FlatFrom(lengths, r, j + 1) == WriteAt(FlatFrom(lengths, files, j + 1), pos, data)
    ensures FlatFrom(lengths, r, j) == WriteAt(FlatFrom(lengths, files, j), lengths[j] + pos, data)
  {
    var head := files[j][..lengths[j]];
    FlatStep(lengths, files, j);
    FlatStep(lengths, r, j);
    WriteBehindPrefix(head, FlatFrom(lengths, files, j + 1), FlatFrom(lengths, r, j + 1), pos, data,
                      FlatFrom(lengths, files, j), FlatFrom(lengths, r, j));
  }

  lemma {:induction false} LiftWriteToFlat(lengths: seq<nat>, files: Files, r: Files, k: nat, pos: nat, data: seq<byte>)
    requires Sized(lengths, files) && Sized(lengths, r) && k <= |lengths|
    requires forall i :: 0 <= i < k ==> r[i] == files[i]
    requires FlatFrom(lengths, r, k) == WriteAt(FlatFrom(lengths, files, k), pos, data)
    ensures Flat(lengths, r) == WriteAt(Flat(lengths, files), Start(lengths, k) + pos, data)
  {
    if 0 < k {
      LiftWriteOverFile(lengths, files, r, k - 1, pos, data);
      LiftWriteToFlat(lengths, files, r, k - 1, lengths[k - 1] + pos, data);
    }
  }

  /** The multi-file write: search, then distribution; None when the offset lies past the last file. */
  function WriteMulti(seek: SeekRule, lengths: seq<nat>, files: Files, offset: nat, data: seq<byte>): Option<Files>
    requires |files| == |lengths|
  {
    var k := Locate(lengths, offset, 0);
    if k == |lengths| then None
    else Some(WriteFrom(seek, lengths, files, k, offset - Start(lengths, k), offset, data))
  }

  lemma MultiFileWriteKeepsLengths(lengths: seq<nat>, files: Files, offset: nat, data: seq<byte>)
    requires Sized(lengths, files) && offset < Start(lengths, |lengths|)
    ensures var r := WriteMulti(AtFileOffset, lengths, files, offset, data);
      && r.Some?
      && Sized(lengths, r.value)
      && forall j :: 0 <= j < |files| ==> |r.value[j]| == |files[j]|
  {
    var k := Locate(lengths, offset, 0);
    var r := WriteMulti(AtFileOffset, lengths, files, offset, data).value;
    forall j | 0 <= j < |files| ensures |r[j]| == |files[j]| {
      WriteFromKeepsLengths(lengths, files, k, offset - Start(lengths, k), offset, data, j);
    }
  }

  /** Seeking inside each file, the write replaces exactly the bytes of the flat run it should. */
  lemma MultiFileWriteOverwrites(lengths: seq<nat>, files: Files, offset: nat, data: seq<byte>)
    requires Sized(lengths, files) && offset < Start(lengths, |lengths|)
    ensures var r := WriteMulti(AtFileOffset, lengths, files, offset, data);
      && r.Some?
      && Sized(lengths, r.value)
      && |Flat(lengths, files)| == Start(lengths, |lengths|)
      && Flat(lengths, r.value)
         == WriteAt(Flat(lengths, files), offset, data[..Min(|data|, Start(lengths, |lengths|) - offset)])
  {
    var k := Locate(lengths, offset, 0);
    var fileOffset := offset - Start(lengths, k);
    var r := WriteFrom(AtFileOffset, lengths, files, k, fileOffset, offset, data);
    var fits := data[..Min(|data|, Start(lengths, |lengths|) - offset)];
    FlatLength(lengths, files, 0);
    FlatLength(lengths, files, k);
    assert FlatFrom(lengths, r, k) == WriteAt(FlatFrom(lengths, files, k), fileOffset, fits) by {
      WriteFromOverwrites(lengths, files, k, fileOffset, offset, data);
    }
    LiftWriteToFlat(lengths, files, r, k, fileOffset, fits);
  }

  // --------------------------------------------- when the coded seek is right

  /** The length of the first file, from file k on, that is not empty. */
  function FirstNonEmpty(lengths: seq<nat>, k: nat): nat
    requires k <= |lengths|
    decreases |lengths| - k
  {
    if k == |lengths| then 0 else if lengths[k] > 0 then lengths[k] else FirstNonEmpty(lengths, k + 1)
  }

  /** The first piece, or a piece that ends inside the first non-empty file. */
  predicate CodedSeekIsRight(lengths: seq<nat>, offset: nat, n: nat) {
    offset == 0 || Min(offset + n, Start(lengths, |lengths|)) <= FirstNonEmpty(lengths, 0)
  }

  lemma {:induction false} FirstNonEmptyAt(lengths: seq<nat>, k: nat) returns (f: nat)
    requires k < |lengths| && Start(lengths, k) == 0 && 0 < Start(lengths, |lengths|)
    ensures k <= f < |lengths| && Start(lengths, f) == 0 && lengths[f] == FirstNonEmpty(lengths, k) > 0
    decreases |lengths| - k
  {
    if lengths[k] > 0 {
      f := k;
    } else {
      assert Start(lengths, k + 1) == 0;
      f := FirstNonEmptyAt(lengths, k + 1);
    }
  }

  lemma {:induction false} LocateIsUnique(lengths: seq<nat>, offset: nat, k: nat, f: nat)
    requires k <= f < |lengths| && Start(lengths, f) <= offset < Start(lengths, f + 1)
    ensures Start(lengths, k) <= offset && Locate(lengths, offset, k) == f
    decreases f - k
  {
    StartGrows(lengths, k, f);
    if k < f {
      StartGrows(lengths, k + 1, f);
      LocateIsUnique(lengths, offset, k + 1, f);
    }
  }

  lemma {:induction false} RulesAgreeAtZero(lengths: seq<nat>, files: Files, k: nat, data: seq<byte>)
    requires |files| == |lengths| && k <= |lengths|
    ensures WriteFrom(AtPieceOffset, lengths, files, k, 0, 0, data) == WriteFrom(AtFileOffset, lengths, files, k, 0, 0, data)
    decreases |lengths| - k
  {
    if data != [] && k < |lengths| {
      var n := Min(|data|, lengths[k]);
      RulesAgreeAtZero(lengths, files[k := WriteAt(files[k], 0, data[..n])], k + 1, data[n..]);
    }
  }

  lemma {:induction false} EmptyFilesTakeNothing(seek: SeekRule, lengths: seq<nat>, files: Files, k: nat,
                                                 pieceOffset: nat, data: seq<byte>)
    requires |files| == |lengths| && k <= |lengths| && Start(lengths, k) == Start(lengths, |lengths|)
    ensures WriteFrom(seek, lengths, files, k, 0, pieceOffset, data) == files
    decreases |lengths| - k
  {
    if k < |lengths| {
      StartGrows(lengths, k + 1, |lengths|);
      assert data[..0] == [] && data[0..] == data && files[k := files[k]] == files;
      EmptyFilesTakeNothing(seek, lengths, files, k + 1, pieceOffset, data);
    }
  }

  lemma RulesAgreeInFirstFile(lengths: seq<nat>, files: Files, f: nat, offset: nat, data: seq<byte>)
    requires |files| == |lengths| && f < |lengths| && offset <= lengths[f]
    requires offset + |data| <= lengths[f] || Start(lengths, f + 1) == Start(lengths, |lengths|)
    ensures WriteFrom(AtPieceOffset, lengths, files, f, offset, offset, data)
         == WriteFrom(AtFileOffset, lengths, files, f, offset, offset, data)
  {
    if data != [] {
      var n := Min(|data|, lengths[f] - offset);
      var files1 := files[f := WriteAt(files[f], offset, data[..n])];
      if offset + |data| > lengths[f] {
        EmptyFilesTakeNothing(AtPieceOffset, lengths, files1, f + 1, offset, data[n..]);
        EmptyFilesTakeNothing(AtFileOffset, lengths, files1, f + 1, offset, data[n..]);
      }
    }
  }

  lemma PieceLiesInFirstFile(lengths: seq<nat>, offset: nat, n: nat) returns (f: nat)
    requires 0 < offset < Start(lengths, |lengths|) && 0 < n && CodedSeekIsRight(lengths, offset, n)
    ensures f < |lengths| && Start(lengths, f) == 0 && offset < lengths[f]
    ensures Locate(lengths, offset, 0) == f
    ensures offset + n <= lengths[f] || Start(lengths, f + 1) == Start(lengths, |lengths|)
  {
    f := FirstNonEmptyAt(lengths, 0);
    assert Start(lengths, f + 1) == lengths[f];
    StartGrows(lengths, f + 1, |lengths|);
    LocateIsUnique(lengths, offset, 0, f);
  }

  lemma WriteStartsAt(seek: SeekRule, lengths: seq<nat>, files: Files, offset: nat, data: seq<byte>, f: nat)
    requires |files| == |lengths| && f < |lengths| && Locate(lengths, offset, 0) == f
    ensures WriteMulti(seek, lengths, files, offset, data)
      == Some(WriteFrom(seek, lengths, files, f, offset - Start(lengths, f), offset, data))
  {
  }

  /** What the recursive distribution leaves is what the loop leaves. */
  lemma WriteFromIsFilesAfter(h: Handout, files: Files, r: Files)
    requires h.Valid() && |files| == |h.lengths|
    requires r == WriteFrom(h.seek, h.lengths, files, h.first, h.firstOffset, h.pieceOffset, h.data)
    ensures r == FilesAfter(h, files)
  {
    var all := FilesAfter(h, files);
    forall j | 0 <= j < |files| ensures r[j] == all[j] {
      WriteFromByFile(h.seek, h.lengths, files, h.first, h.firstOffset, h.pieceOffset, h.data, j);
      ReplacedAt(files, Outcome(h, files), |files|, j);
    }
  }

  lemma MultiWriteByFile(seek: SeekRule, lengths: seq<nat>, files: Files, now: Files, f: nat, offset: nat, data: seq<byte>)
    requires |files| == |lengths| == |now| && f < |lengths| && Locate(lengths, offset, 0) == f
    requires now == FilesAfter(Handout(seek, lengths, f, offset - Start(lengths, f), offset, data), files)
    ensures WriteMulti(seek, lengths, files, offset, data) == Some(now)
  {
    var fileOffset := offset - Start(lengths, f);
    WriteFromIsFilesAfter(Handout(seek, lengths, f, fileOffset, offset, data), files,
                          WriteFrom(seek, lengths, files, f, fileOffset, offset, data));
    WriteStartsAt(seek, lengths, files, offset, data, f);
  }

  lemma CodedSeekAgreesInFirstFile(lengths: seq<nat>, files: Files, offset: nat, data: seq<byte>)
    requires |files| == |lengths| && 0 < offset < Start(lengths, |lengths|) && data != []
    requires CodedSeekIsRight(lengths, offset, |data|)
    ensures WriteMulti(AtPieceOffset, lengths, files, offset, data) == WriteMulti(AtFileOffset, lengths, files, offset, data)
  {
    var f := PieceLiesInFirstFile(lengths, offset, |data|);
    WriteStartsAt(AtPieceOffset, lengths, files, offset, data, f);
    WriteStartsAt(AtFileOffset, lengths, files, offset, data, f);
    RulesAgreeInFirstFile(lengths, files, f, offset, data);
  }

  lemma CodedSeekAgreesAtZero(lengths: seq<nat>, files: Files, data: seq<byte>)
    requires |files| == |lengths| && 0 < Start(lengths, |lengths|)
    ensures WriteMulti(AtPieceOffset, lengths, files, 0, data) == WriteMulti(AtFileOffset, lengths, files, 0, data)
  {
    var k := Locate(lengths, 0, 0);
    WriteStartsAt(AtPieceOffset, lengths, files, 0, data, k);
    WriteStartsAt(AtFileOffset, lengths, files, 0, data, k);
    RulesAgreeAtZero(lengths, files, k, data);
  }

  lemma WritingNothingAgrees(lengths: seq<nat>, files: Files, offset: nat)
    requires |files| == |lengths| && offset < Start(lengths, |lengths|)
    ensures WriteMulti(AtPieceOffset, lengths, files, offset, []) == WriteMulti(AtFileOffset, lengths, files, offset, [])
  {
  }

  lemma CodedSeekAgrees(lengths: seq<nat>, files: Files, offset: nat, data: seq<byte>)
    requires |files| == |lengths| && offset < Start(lengths, |lengths|)
    requires data == [] || CodedSeekIsRight(lengths, offset, |data|)
    ensures WriteMulti(AtPieceOffset, lengths, files, offset, data) == WriteMulti(AtFileOffset, lengths, files, offset, data)
  {
    if data == [] {
      WritingNothingAgrees(lengths, files, offset);
    } else if offset == 0 {
      CodedSeekAgreesAtZero(lengths, files, data);
    } else {
      CodedSeekAgreesInFirstFile(lengths, files, offset, data);
    }
  }

  /** The coded write leaves everything before `pieceOffset` alone, in every file. */
  lemma {:induction false} CodedWriteKeepsBelow(lengths: seq<nat>, files: Files, k: nat, fileOffset: nat,
                                                pieceOffset: nat, data: seq<byte>, j: nat, x: nat)
    requires |files| == |lengths| && k <= |lengths| && (k < |lengths| ==> fileOffset <= lengths[k])
    requires j < |files| && x < |files[j]| && x < pieceOffset
    ensures WriteFrom(AtPieceOffset, lengths, files, k, fileOffset, pieceOffset, data)[j][x] == files[j][x]
    decreases |lengths| - k
  {
    if data != [] && k < |lengths| {
      var n := Min(|data|, lengths[k] - fileOffset);
      var files1 := files[k := WriteAt(files[k], pieceOffset, data[..n])];
      CodedWriteKeepsBelow(lengths, files1, k + 1, 0, pieceOffset, data[n..], j, x);
    }
  }

  lemma CodedMultiKeepsBelow(lengths: seq<nat>, files: Files, offset: nat, data: seq<byte>, j: nat, x: nat)
    requires |files| == |lengths| && j < |files| && x < |files[j]| && x < offset < Start(lengths, |lengths|)
    ensures var r := WriteMulti(AtPieceOffset, lengths, files, offset, data);
      r.Some? && r.value[j][x] == files[j][x]
  {
    var k := Locate(lengths, offset, 0);
    CodedWriteKeepsBelow(lengths, files, k, offset - Start(lengths, k), offset, data, j, x);
  }

  /** Where the condition fails, the piece has a byte whose place in its file lies below the offset. */
  lemma MisplacedByte(lengths: seq<nat>, offset: nat, n: nat) returns (pos: nat, j: nat)
    requires offset < Start(lengths, |lengths|) && 0 < n && !CodedSeekIsRight(lengths, offset, n)
    ensures offset <= pos < Min(offset + n, Start(lengths, |lengths|))
    ensures j < |lengths| && Start(lengths, j) <= pos < Start(lengths, j) + lengths[j]
    ensures pos - Start(lengths, j) < offset
  {
    var f := FirstNonEmptyAt(lengths, 0);
    if offset < lengths[f] {
      pos := lengths[f];
      j := Locate(lengths, pos, 0);
      if j <= f {
        StartGrows(lengths, j, f);
        if j < f { StartGrows(lengths, j + 1, f); }
        assert false;
      }
      StartGrows(lengths, f + 1, j);
    } else {
      pos := offset;
      j := Locate(lengths, pos, 0);
      if j <= f {
        StartGrows(lengths, j, f);
        if j < f { StartGrows(lengths, j + 1, f); }
        assert false;
      }
      StartGrows(lengths, f + 1, j);
    }
  }

  ghost predicate SeekRulesAgree(lengths: seq<nat>, files: Files, offset: nat, n: nat)
    requires |files| == |lengths|
  {
    forall data: seq<byte> :: |data| == n ==>
      WriteMulti(AtPieceOffset, lengths, files, offset, data) == WriteMulti(AtFileOffset, lengths, files, offset, data)
  }

  /** Data that differs from what is on disk at every byte. */
  ghost function Flipped(was: seq<byte>, n: nat): (r: seq<byte>)
    ensures |r| == n && forall x :: 0 <= x < n && x < |was| ==> r[x] != was[x]
  {
    seq(n, x requires 0 <= x => if x < |was| then (if was[x] == 0 then 1 else 0) else 0)
  }

  /** The coded seek does what it should, for all data of a length, on exactly these pieces. */
  lemma CodedSeekIsRightExactly(lengths: seq<nat>, files: Files, offset: nat, n: nat)
    requires Sized(lengths, files) && offset < Start(lengths, |lengths|) && 0 < n
    ensures SeekRulesAgree(lengths, files, offset, n) <==> CodedSeekIsRight(lengths, offset, n)
  {
    if CodedSeekIsRight(lengths, offset, n) {
      forall data: seq<byte> | |data| == n
        ensures WriteMulti(AtPieceOffset, lengths, files, offset, data) == WriteMulti(AtFileOffset, lengths, files, offset, data)
      {
        CodedSeekAgrees(lengths, files, offset, data);
      }
    } else {
      CodedSeekGoesWrong(lengths, files, offset, n);
    }
  }

  lemma ChangedByteShows(lengths: seq<nat>, files: Files, files': Files, pos: nat, j: nat)
    requires Sized(lengths, files) && Sized(lengths, files')
    requires j < |lengths| && Start(lengths, j) <= pos < Start(lengths, j) + lengths[j]
    requires pos < |Flat(lengths, files)| && pos < |Flat(lengths, files')|
    requires Flat(lengths, files)[pos] != Flat(lengths, files')[pos]
    ensures files[j][pos - Start(lengths, j)] != files'[j][pos - Start(lengths, j)]
  {
    FlatAt(lengths, files, 0, j, pos - Start(lengths, j));
    FlatAt(lengths, files', 0, j, pos - Start(lengths, j));
  }

  lemma RightWriteShows(lengths: seq<nat>, files: Files, right: Files, offset: nat, data: seq<byte>, pos: nat, j: nat)
    requires Sized(lengths, files) && Sized(lengths, right) && offset <= pos < Min(offset + |data|, Start(lengths, |lengths|))
    requires |Flat(lengths, files)| == Start(lengths, |lengths|) && data[pos - offset] != Flat(lengths, files)[pos]
    requires Flat(lengths, right)
      == WriteAt(Flat(lengths, files), offset, data[..Min(|data|, Start(lengths, |lengths|) - offset)])
    requires j < |lengths| && Start(lengths, j) <= pos < Start(lengths, j) + lengths[j]
    ensures files[j][pos - Start(lengths, j)] != right[j][pos - Start(lengths, j)]
  {
    assert Flat(lengths, right)[pos] == data[pos - offset];
    ChangedByteShows(lengths, files, right, pos, j);
  }

  lemma RulesDisagree(lengths: seq<nat>, files: Files, offset: nat, data: seq<byte>, pos: nat, j: nat)
    requires Sized(lengths, files) && offset <= pos < Min(offset + |data|, Start(lengths, |lengths|))
    requires |Flat(lengths, files)| == Start(lengths, |lengths|) && data[pos - offset] != Flat(lengths, files)[pos]
    requires j < |lengths| && Start(lengths, j) <= pos < Start(lengths, j) + lengths[j]
    requires pos - Start(lengths, j) < offset
    ensures WriteMulti(AtPieceOffset, lengths, files, offset, data) != WriteMulti(AtFileOffset, lengths, files, offset, data)
  {
    var right := WriteMulti(AtFileOffset, lengths, files, offset, data);
    MultiFileWriteOverwrites(lengths, files, offset, data);
    RightWriteShows(lengths, files, right.value, offset, data, pos, j);
    CodedMultiKeepsBelow(lengths, files, offset, data, j, pos - Start(lengths, j));
  }

  lemma CodedSeekGoesWrong(lengths: seq<nat>, files: Files, offset: nat, n: nat)
    requires Sized(lengths, files) && offset < Start(lengths, |lengths|) && 0 < n
    requires !CodedSeekIsRight(lengths, offset, n)
    ensures !SeekRulesAgree(lengths, files, offset, n)
  {
    var pos, j := MisplacedByte(lengths, offset, n);
    FlatLength(lengths, files, 0);
    var flat := Flat(lengths, files);
    var data := Flipped(flat[offset..], n);
    assert data[pos - offset] != flat[offset..][pos - offset];
    RulesDisagree(lengths, files, offset, data, pos, j);
  }
}
