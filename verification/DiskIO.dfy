/** The disk as an object (src/core/disk_io.rs): open files, changed in place. */
module DiskDriver {
  import opened Bytes
  import opened Disk
  import opened PieceStore

  class DiskFile {
    var contents: seq<byte>
    var position: nat
    /** Whether the system beneath never fails on this file. Nothing here depends on it but the outcome. */
    const reliable: bool

    constructor (length: nat, reliable: bool)
      ensures contents == seq(length, _ => 0) && this.reliable == reliable
    {
      contents := seq(length, _ => 0);
      position := 0;
      this.reliable := reliable;
    }

    method Seek(to: nat)
      modifies this
      ensures position == to && contents == old(contents)
    {
      position := to;
    }

    /** Writes all of `data`, or fails after some prefix of it has reached the file. */
    method WriteAll(data: seq<byte>) returns (ok: bool, ghost stored: nat)
      modifies this
      ensures stored <= |data| && (ok ==> stored == |data|) && (reliable ==> ok)
      ensures contents == WriteAt(old(contents), old(position), data[..stored])
    {
      ok := *;
      if reliable {
        ok := true;
      }
      var n := |data|;
      if !ok {
        n :| 0 <= n <= |data|;
      }
      stored := n;
      contents := WriteAt(contents, position, data[..n]);
      position := position + n;
    }

    /** Fills a stretch of the buffer from the current position, or fails. */
    method ReadExact(buffer: array<byte>, lo: nat, hi: nat) returns (ok: bool)
      requires lo <= hi <= buffer.Length
      modifies this, buffer
      ensures contents == old(contents)
      ensures ok ==> old(position) + (hi - lo) <= |contents|
      ensures reliable && old(position) + (hi - lo) <= |contents| ==> ok
      ensures ok ==>
        buffer[..] == old(buffer[..])[..lo] + contents[old(position)..old(position) + (hi - lo)] + old(buffer[..])[hi..]
    {
      ok := *;
      if reliable {
        ok := true;
      }
      if position + (hi - lo) > |contents| {
        ok := false;
      }
      if ok {
        forall x | lo <= x < hi {
          buffer[x] := contents[position + x - lo];
        }
        position := position + (hi - lo);
      }
    }
  }

  ghost function Held(files: seq<DiskFile>): (r: Files)
    reads files
    ensures |r| == |files| && forall k :: 0 <= k < |files| ==> r[k] == files[k].contents
  {
    seq(|files|, k requires 0 <= k < |files| reads files => files[k].contents)
  }

  predicate ZeroFrom(bytes: seq<byte>, n: nat) {
    forall x :: n <= x < |bytes| ==> bytes[x] == 0
  }

  /** No file is opened twice. Recursive, so that no proof meets all pairs of files. */
  ghost predicate NoRepeats(files: seq<DiskFile>) {
    files == [] || (files[|files| - 1] !in files[..|files| - 1] && NoRepeats(files[..|files| - 1]))
  }

  lemma {:induction false} OthersDiffer(files: seq<DiskFile>, k: nat, j: nat)
    requires NoRepeats(files) && k < |files| && j < |files| && j != k
    ensures files[j] != files[k]
    decreases |files|
  {
    var last := |files| - 1;
    if j < last && k < last {
      OthersDiffer(files[..last], k, j);
    }
  }

  lemma BufferAfter(before: seq<byte>, after: seq<byte>, lo: nat, hi: nat, chunk: seq<byte>)
    requires lo <= hi <= |before| && |chunk| == hi - lo
    requires after == before[..lo] + chunk + before[hi..]
    ensures |after| == |before| && after[..hi] == before[..lo] + chunk
    ensures forall x :: hi <= x < |after| ==> after[x] == before[x]
  {
  }

  /** Where the reading loop stands: the next byte is `fileOffset` bytes into file k, `done` bytes are there. */
  ghost predicate ReadsAt(lengths: seq<nat>, files: Files, k: nat, fileOffset: nat, bytes: seq<byte>, done: nat) {
    && Sized(lengths, files) && k <= |lengths| && (k < |lengths| ==> fileOffset <= lengths[k])
    && done <= |bytes| && ZeroFrom(bytes, done)
  }

  /** What the buffer will hold in the end: the first `done` bytes, and what the files still give from here. */
  ghost function Prospect(lengths: seq<nat>, files: Files, k: nat, fileOffset: nat, bytes: seq<byte>, done: nat): seq<byte>
    requires ReadsAt(lengths, files, k, fileOffset, bytes, done)
  {
    bytes[..done] + ReadFrom(lengths, files, k, fileOffset, |bytes| - done)
  }

  lemma NothingReadYet(lengths: seq<nat>, files: Files, k: nat, fileOffset: nat, bytes: seq<byte>)
    requires ReadsAt(lengths, files, k, fileOffset, bytes, 0)
    ensures Prospect(lengths, files, k, fileOffset, bytes, 0) == ReadFrom(lengths, files, k, fileOffset, |bytes|)
  {
  }

  /** The reading loop is over: nothing is left to read, or only zeros. */
  lemma AllCollected(lengths: seq<nat>, files: Files, k: nat, fileOffset: nat, bytes: seq<byte>, done: nat)
    requires ReadsAt(lengths, files, k, fileOffset, bytes, done) && (done == |bytes| || k == |lengths|)
    ensures Prospect(lengths, files, k, fileOffset, bytes, done) == bytes
  {
  }

  /** One turn keeps the prospect. */
  lemma OneMoreRead(lengths: seq<nat>, files: Files, k: nat, fileOffset: nat, before: seq<byte>, after: seq<byte>,
                    done: nat, m: nat)
    requires ReadsAt(lengths, files, k, fileOffset, before, done)
    requires k < |lengths| && done < |before| && m == Min(|before| - done, lengths[k] - fileOffset)
    requires after == before[..done] + files[k][fileOffset..fileOffset + m] + before[done + m..]
    ensures ReadsAt(lengths, files, k + 1, 0, after, done + m)
    ensures Prospect(lengths, files, k + 1, 0, after, done + m) == Prospect(lengths, files, k, fileOffset, before, done)
  {
    ReadGoesOn(lengths, files, k, fileOffset, |before| - done, m, before[..done]);
    BufferAfter(before, after, done, done + m, files[k][fileOffset..fileOffset + m]);
  }

  /**
   * The course of a distribution: stages[k] is what the files hold once each file before k has its chunk,
   * results[n] what they hold when it ends after n bytes.
   */
  datatype Course = Course(stages: seq<Files>, results: seq<Files>)

  ghost predicate IsCourse(h: Handout, was: Files, course: Course) {
    && h.Valid() && |was| == |h.lengths|
    && |course.stages| == |h.lengths| + 1 && |course.results| == |h.data| + 1
    && (forall k: nat {:trigger Midway(h, was, k)} :: k <= |h.lengths| ==> course.stages[k] == Midway(h, was, k))
    && (forall n: nat {:trigger h.Upto(n)} :: n <= |h.data| ==> course.results[n] == FilesAfter(h.Upto(n), was))
  }

  lemma CourseOf(h: Handout, was: Files) returns (course: Course)
    requires h.Valid() && |was| == |h.lengths|
    ensures IsCourse(h, was, course) && course.stages[h.first] == was
  {
    course := Course(seq(|h.lengths| + 1, k requires 0 <= k <= |h.lengths| => Midway(h, was, k)),
                     seq(|h.data| + 1, n requires 0 <= n <= |h.data| => FilesAfter(h.Upto(n), was)));
    NoneDoneYet(h, was);
    assert course.stages[h.first] == Midway(h, was, h.first);
  }

  lemma ResultIs(h: Handout, was: Files, course: Course, n: nat)
    requires IsCourse(h, was, course) && n <= |h.data|
    ensures course.results[n] == FilesAfter(h.Upto(n), was)
  {
  }

  /** Where a turn seeks to. */
  function SeekTo(h: Handout, offset: nat): nat {
    if h.seek.AtPieceOffset? then h.pieceOffset else offset
  }

  /** A turn that succeeds leads to the next stage. */
  lemma TurnSucceeds(h: Handout, was: Files, course: Course, next: Files, k: nat, offset: nat, done: nat, position: nat,
                     m: nat)
    requires IsCourse(h, was, course) && StandsAt(h, k, offset, done) && k < |h.lengths| && |course.stages[k]| == |h.lengths|
    requires done < |h.data| && offset <= h.lengths[k] && m == TurnLength(h, k, offset, done)
    requires position == SeekTo(h, offset)
    requires next == course.stages[k][k := WriteAt(course.stages[k][k], position, h.data[done..done + m])]
    ensures StandsAt(h, k + 1, 0, done + m) && next == course.stages[k + 1]
  {
    assert course.stages[k] == Midway(h, was, k) && course.stages[k + 1] == Midway(h, was, k + 1);
    OneMoreDone(h, was, course.stages[k], next, k, offset, done, m);
  }

  /** A turn that fails has handed out what it stored. */
  lemma TurnFails(h: Handout, was: Files, course: Course, next: Files, k: nat, offset: nat, done: nat, position: nat,
                  part: nat)
    requires IsCourse(h, was, course) && StandsAt(h, k, offset, done) && k < |h.lengths| && |course.stages[k]| == |h.lengths|
    requires done < |h.data| && offset <= h.lengths[k] && part <= TurnLength(h, k, offset, done)
    requires position == SeekTo(h, offset)
    requires next == course.stages[k][k := WriteAt(course.stages[k][k], position, h.data[done..done + part])]
    ensures next == course.results[done + part]
  {
    assert course.stages[k] == Midway(h, was, k);
    DistributionFails(h, was, course.stages[k], next, k, offset, done, part);
    ResultIs(h, was, course, done + part);
  }

  lemma PartOfSlice(data: seq<byte>, lo: nat, hi: nat, n: nat)
    requires lo <= hi <= |data| && n <= hi - lo
    ensures data[lo..hi][..n] == data[lo..lo + n]
  {
  }

  /** Both ways a turn can end. */
  lemma TurnEnds(h: Handout, was: Files, course: Course, now: Files, next: Files, k: nat, offset: nat, done: nat,
                 position: nat, m: nat, part: nat, ok: bool)
    requires IsCourse(h, was, course) && StandsAt(h, k, offset, done) && k < |h.lengths| && |course.stages[k]| == |h.lengths|
    requires done < |h.data| && offset <= h.lengths[k] && m == TurnLength(h, k, offset, done)
    requires part <= m && (ok ==> part == m) && position == SeekTo(h, offset)
    requires now == course.stages[k] && next == now[k := WriteAt(now[k], position, h.data[done..done + m][..part])]
    ensures ok ==> StandsAt(h, k + 1, 0, done + m) && next == course.stages[k + 1]
    ensures !ok ==> next == course.results[done + part]
  {
    PartOfSlice(h.data, done, done + m, part);
    if ok {
      TurnSucceeds(h, was, course, next, k, offset, done, position, m);
    } else {
      TurnFails(h, was, course, next, k, offset, done, position, part);
    }
  }

  /** The end of the loop: everything has been handed out. */
  lemma AllDone(h: Handout, was: Files, course: Course, k: nat, offset: nat, done: nat)
    requires IsCourse(h, was, course) && StandsAt(h, k, offset, done) && (done == |h.data| || k == |h.lengths|)
    ensures course.stages[k] == course.results[|h.data|]
  {
    assert course.stages[k] == Midway(h, was, k);
    DistributionEnds(h, was, course.stages[k], k, offset, done);
    assert h.data[..|h.data|] == h.data && h.Upto(|h.data|) == h;
  }

  /** What has been handed out is the multi-file write of it. */
  lemma HandedOut(h: Handout, was: Files, now: Files, stored: nat)
    requires |was| == |now| == |h.lengths| && stored <= |h.data|
    requires h.first < |h.lengths| && Locate(h.lengths, h.pieceOffset, 0) == h.first
    requires h.firstOffset == h.pieceOffset - Start(h.lengths, h.first)
    requires now == FilesAfter(h.Upto(stored), was)
    ensures Some(now) == WriteMulti(h.seek, h.lengths, was, h.pieceOffset, h.data[..stored])
  {
    assert h.Upto(stored)
        == Handout(h.seek, h.lengths, h.first, h.firstOffset, h.pieceOffset, h.data[..stored]);
    MultiWriteByFile(h.seek, h.lengths, was, now, h.first, h.pieceOffset, h.data[..stored]);
  }

  class DiskIO {
    const g: Geometry
    const files: seq<DiskFile>

    ghost function Contents(): Files
      reads files
    {
      Held(files)
    }

    ghost predicate Valid()
      reads files
    {
      NoRepeats(files) && Opened(g, Contents())
    }

    /** No file ever fails. */
    predicate Reliable() {
      forall k :: 0 <= k < |files| ==> files[k].reliable
    }

    /** Takes over files that are already open and sized. */
    constructor (g: Geometry, files: seq<DiskFile>)
      requires NoRepeats(files) && Opened(g, Held(files))
      ensures Valid() && this.g == g && this.files == files
    {
      this.g, this.files := g, files;
    }

    /** The search both multi-file routines start with. */
    static method FindFile(lengths: seq<nat>, offset: nat) returns (fileIndex: nat, currentOffset: nat)
      ensures fileIndex == Locate(lengths, offset, 0) && currentOffset == Start(lengths, fileIndex)
    {
      currentOffset, fileIndex := 0, 0;
      while fileIndex < |lengths|
        invariant fileIndex <= |lengths|
        invariant currentOffset == Start(lengths, fileIndex) <= offset
        invariant Locate(lengths, offset, 0) == Locate(lengths, offset, fileIndex)
      {
        if currentOffset + lengths[fileIndex] > offset {
          break;
        }
        currentOffset := currentOffset + lengths[fileIndex];
        fileIndex := fileIndex + 1;
      }
    }

    /** What happens to file k leaves the others as they are. */
    twostate lemma OneFileChanged(k: nat)
      requires old(Valid()) && k < |files|
      requires forall j :: 0 <= j < |files| && j != k ==> unchanged(files[j])
      requires |old(files[k].contents)| <= |files[k].contents|
      ensures Valid() && Contents() == old(Contents())[k := files[k].contents]
    {
    }

    /** Seeks in file k and writes the chunk there, or a prefix of it. */
    method WriteChunk(k: nat, position: nat, chunk: seq<byte>) returns (ok: bool, ghost stored: nat)
      requires Valid() && k < |files|
      modifies files
      ensures Valid()
      ensures stored <= |chunk| && (ok ==> stored == |chunk|)
      ensures Reliable() ==> ok
      ensures Contents() == old(Contents())[k := WriteAt(old(Contents())[k], position, chunk[..stored])]
    {
      forall j | 0 <= j < |files| && j != k ensures files[j] != files[k] {
        OthersDiffer(files, k, j);
      }
      files[k].Seek(position);
      ok, stored := files[k].WriteAll(chunk);
      OneFileChanged(k);
    }

    /** One turn of the distribution: the part of the data that falls into file k. */
    method WriteTurn(h: Handout, k: nat, offset: nat, done: nat, ghost was: Files, ghost course: Course)
      returns (ok: bool, m: nat, ghost stored: nat)
      requires Valid() && g.layout == MultiFile(h.lengths) && h.seek == g.seek && IsCourse(h, was, course)
      requires StandsAt(h, k, offset, done) && Contents() == course.stages[k] && k < |h.lengths| && done < |h.data|
      modifies files
      ensures Valid() && done + m <= |h.data|
      ensures Reliable() ==> ok
      ensures ok ==> StandsAt(h, k + 1, 0, done + m) && Contents() == course.stages[k + 1]
      ensures done <= stored <= |h.data|
      ensures !ok ==> Contents() == course.results[stored]
    {
      m := TurnLength(h, k, offset, done);
      var position := SeekTo(h, offset);
      ghost var now, part := Contents(), 0;
      ok, part := WriteChunk(k, position, h.data[done..done + m]);
      stored := done + part;
      TurnEnds(h, was, course, now, Contents(), k, offset, done, position, m, part, ok);
    }

    /**
     * The distribution loop: hands the data out over the files from `first` on. On a failure a prefix of
     * the data, `stored` bytes long, has been written.
     */
    method Distribute(h: Handout) returns (ok: bool, ghost stored: nat)
      requires Valid() && g.layout == MultiFile(h.lengths) && h.seek == g.seek && h.Valid()
      modifies files
      ensures Valid()
      ensures stored <= |h.data| && (ok ==> stored == |h.data|)
      ensures Reliable() ==> ok
      ensures Contents() == FilesAfter(h.Upto(stored), old(Contents()))
    {
      var remaining: nat, dataOffset: nat := |h.data|, 0;
      var fileIndex: nat, fileOffset: nat := h.first, h.firstOffset;
      ghost var was := Contents();
      ghost var course := CourseOf(h, was);
      while remaining > 0 && fileIndex < |h.lengths|
        invariant Valid() && dataOffset + remaining == |h.data|
        invariant StandsAt(h, fileIndex, fileOffset, dataOffset) && Contents() == course.stages[fileIndex]
      {
        var lengthToWrite;
        ok, lengthToWrite, stored := WriteTurn(h, fileIndex, fileOffset, dataOffset, was, course);
        if !ok {
          ResultIs(h, was, course, stored);
          return;
        }
        dataOffset := dataOffset + lengthToWrite;
        remaining := remaining - lengthToWrite;
        fileIndex := fileIndex + 1;
        fileOffset := 0;
      }
      AllDone(h, was, course, fileIndex, fileOffset, dataOffset);
      ResultIs(h, was, course, |h.data|);
      return true, |h.data|;
    }

    method WriteMultiFilePiece(i: u32, data: seq<byte>, lengths: seq<nat>) returns (ok: bool, ghost stored: nat)
      requires Valid() && g.layout == MultiFile(lengths)
      modifies files
      ensures Valid()
      ensures stored <= |data| && (ok ==> stored == |data|)
      ensures Reliable() && g.Offset(i) < g.Total() ==> ok
      ensures g.Offset(i) < g.Total() ==>
        Some(Contents()) == WriteMulti(g.seek, lengths, old(Contents()), g.Offset(i), data[..stored])
      ensures g.Offset(i) >= g.Total() ==> !ok && Contents() == old(Contents())
    {
      var pieceOffset := g.Offset(i);
      var fileIndex, currentOffset := FindFile(lengths, pieceOffset);
      if fileIndex >= |lengths| {
        return false, 0;
      }
      ghost var was := Contents();
      var h := Handout(g.seek, lengths, fileIndex, pieceOffset - currentOffset, pieceOffset, data);
      ok, stored := Distribute(h);
      HandedOut(h, was, Contents(), stored);
    }

    method WritePiece(i: u32, data: seq<byte>) returns (ok: bool, ghost stored: nat)
      requires Valid()
      modifies files
      ensures Valid()
      ensures stored <= |data| && (ok ==> stored == |data|)
      ensures Reliable() && g.Offset(i) < g.Total() ==> ok
      ensures g.Offset(i) < g.Total() ==>
        Some(Contents()) == PieceStore.WritePiece(g, old(Contents()), i, data[..stored])
      ensures g.Offset(i) >= g.Total() ==> !ok && Contents() == old(Contents())
    {
      var pieceOffset := g.Offset(i);
      if pieceOffset >= g.Total() {
        return false, 0;
      }
      match g.layout
      case SingleFile(_) =>
        ok, stored := WriteChunk(0, pieceOffset, data);
        assert Contents() == [WriteAt(old(Contents())[0], pieceOffset, data[..stored])];
      case MultiFile(lengths) =>
        ok, stored := WriteMultiFilePiece(i, data, lengths);
    }

    method ReadChunk(k: nat, position: nat, buffer: array<byte>, lo: nat, hi: nat) returns (ok: bool)
      requires Valid() && k < |files| && lo <= hi <= buffer.Length
      modifies files, buffer
      ensures Valid() && Contents() == old(Contents())
      ensures ok ==> position + (hi - lo) <= |Contents()[k]|
      ensures Reliable() && position + (hi - lo) <= |Contents()[k]| ==> ok
      ensures ok ==> buffer[..] == old(buffer[..])[..lo] + Contents()[k][position..position + (hi - lo)] + old(buffer[..])[hi..]
    {
      files[k].Seek(position);
      ok := files[k].ReadExact(buffer, lo, hi);
    }

    /** One turn of the reading loop: the part of the piece that lies in file k. */
    method ReadTurn(lengths: seq<nat>, k: nat, fileOffset: nat, buffer: array<byte>, done: nat, ghost was: Files)
      returns (ok: bool, m: nat)
      requires Valid() && g.layout == MultiFile(lengths) && Contents() == was
      requires ReadsAt(lengths, was, k, fileOffset, buffer[..], done) && k < |lengths| && done < buffer.Length
      modifies files, buffer
      ensures Valid() && Contents() == was && done + m <= buffer.Length
      ensures Reliable() ==> ok
      ensures ok ==> ReadsAt(lengths, was, k + 1, 0, buffer[..], done + m)
      ensures ok ==>
        Prospect(lengths, was, k + 1, 0, buffer[..], done + m)
          == old(Prospect(lengths, was, k, fileOffset, buffer[..], done))
    {
      ghost var before := buffer[..];
      m := Min(buffer.Length - done, lengths[k] - fileOffset);
      ok := ReadChunk(k, fileOffset, buffer, done, done + m);
      if ok {
        OneMoreRead(lengths, was, k, fileOffset, before, buffer[..], done, m);
      }
    }

    /** The reading loop: on success the buffer holds what was in prospect. */
    method Collect(lengths: seq<nat>, firstFile: nat, firstOffset: nat, buffer: array<byte>) returns (ok: bool)
      requires Valid() && g.layout == MultiFile(lengths)
      requires ReadsAt(lengths, Contents(), firstFile, firstOffset, buffer[..], 0)
      modifies files, buffer
      ensures Valid() && Contents() == old(Contents())
      ensures Reliable() ==> ok
      ensures ok ==> buffer[..] == old(Prospect(lengths, Contents(), firstFile, firstOffset, buffer[..], 0))
    {
      var remaining: nat, dataOffset: nat := buffer.Length, 0;
      var fileIndex: nat, fileOffset: nat := firstFile, firstOffset;
      ghost var was := Contents();
      ghost var whole := Prospect(lengths, was, firstFile, firstOffset, buffer[..], 0);
      while remaining > 0 && fileIndex < |lengths|
        invariant Valid() && Contents() == was && dataOffset + remaining == buffer.Length
        invariant ReadsAt(lengths, was, fileIndex, fileOffset, buffer[..], dataOffset)
        invariant Prospect(lengths, was, fileIndex, fileOffset, buffer[..], dataOffset) == whole
      {
        var bytesToRead;
        ok, bytesToRead := ReadTurn(lengths, fileIndex, fileOffset, buffer, dataOffset, was);
        if !ok {
          return;
        }
        dataOffset := dataOffset + bytesToRead;
        remaining := remaining - bytesToRead;
        fileIndex := fileIndex + 1;
        fileOffset := 0;
      }
      AllCollected(lengths, was, fileIndex, fileOffset, buffer[..], dataOffset);
      return true;
    }

    /** Fills a zeroed buffer from the files it spans; what lies past the last file stays zero. */
    method ReadMultiFilePiece(i: u32, buffer: array<byte>, lengths: seq<nat>) returns (ok: bool)
      requires Valid() && g.layout == MultiFile(lengths) && ZeroFrom(buffer[..], 0)
      modifies files, buffer
      ensures Valid() && Contents() == old(Contents())
      ensures g.Offset(i) >= g.Total() ==> !ok
      ensures Reliable() && g.Offset(i) < g.Total() ==> ok
      ensures ok ==> var k := Locate(lengths, g.Offset(i), 0);
        k < |lengths| && buffer[..] == ReadFrom(lengths, Contents(), k, g.Offset(i) - Start(lengths, k), buffer.Length)
    {
      var pieceOffset := g.Offset(i);
      var fileIndex: nat, currentOffset: nat := FindFile(lengths, pieceOffset);
      if fileIndex >= |lengths| {
        return false;
      }
      NothingReadYet(lengths, Contents(), fileIndex, pieceOffset - currentOffset, buffer[..]);
      ok := Collect(lengths, fileIndex, pieceOffset - currentOffset, buffer);
    }

    /** The data as the specification says, on reliable files always; None for an error of an unreliable one. */
    method ReadPiece(i: u32) returns (r: Option<seq<byte>>)
      requires Valid()
      modifies files
      ensures Valid() && Contents() == old(Contents())
      ensures r.Some? ==> r == PieceStore.ReadPiece(g, Contents(), i)
      ensures Reliable() ==> r == PieceStore.ReadPiece(g, Contents(), i)
    {
      var pieceOffset := g.Offset(i);
      if pieceOffset >= g.Total() {
        return None;
      }
      var pieceSize := PieceSize(g, i);
      var buffer := new byte[pieceSize](_ => 0);
      var ok;
      match g.layout {
        case SingleFile(_) =>
          ok := ReadChunk(0, pieceOffset, buffer, 0, pieceSize);
          assert ok ==> buffer[..] == Contents()[0][pieceOffset..pieceOffset + pieceSize];
        case MultiFile(lengths) =>
          ok := ReadMultiFilePiece(i, buffer, lengths);
      }
      r := if ok then Some(buffer[..]) else None;
      assert ok ==> PieceStore.ReadPiece(g, Contents(), i) == Some(buffer[..]);
    }
  }
}
