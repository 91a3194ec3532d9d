/** Reading and writing a torrent's flat byte range through the many files that hold it. */
module Storage {
  import opened ByteStrings
  import opened MetaInfo
  import opened Numbers

  // ---------- Disk ----------

  /** File contents by path; a path that is not a key names no file. */
  type Disk = map<string, Bytes>

  function ByteAt(c: Bytes, k: nat): Byte
  {
    if k < |c| then c[k] else 0
  }

  function Content(disk: Disk, path: string): Bytes
  {
    if path in disk then disk[path] else []
  }

  /** os.File.WriteAt: the file grows as needed, a gap reads as zeros. */
  function Overlay(c: Bytes, offset: nat, d: Bytes): (r: Bytes)
    ensures |c| <= |r|
    ensures forall k: nat :: ByteAt(r, k) == if offset <= k < offset + |d| then d[k - offset] else ByteAt(c, k)
    ensures d != [] ==> offset + |d| <= |r|
  {
    var n := if d != [] && |c| < offset + |d| then offset + |d| else |c|;
    seq(n, k requires 0 <= k < n => if offset <= k < offset + |d| then d[k - offset] else ByteAt(c, k))
  }

  function OsWrite(disk: Disk, path: string, offset: nat, d: Bytes): Disk
  {
    disk[path := Overlay(Content(disk, path), offset, d)]
  }

  /** Opening for writing creates a missing file. */
  function Created(disk: Disk, path: string): Disk
  {
    if path in disk then disk else disk[path := []]
  }

  // ---------- Layout ----------

  function PathOf(info: Info, i: nat): string
    requires i < |info.AllFiles()|
  {
    info.AllFiles()[i].path
  }

  /** No two files that hold data share a path. */
  ghost predicate Distinct(info: Info)
  {
    forall i, j :: 0 <= i < j < |info.AllFiles()| && info.AllFiles()[i].length > 0 && info.AllFiles()[j].length > 0 ==>
      PathOf(info, i) != PathOf(info, j)
  }

  /** The first `length` bytes of a file, unwritten ones as zeros. */
  function View(c: Bytes, length: nat): Bytes
  {
    seq(length, k requires 0 <= k < length => ByteAt(c, k))
  }

  ghost function FlatFrom(info: Info, disk: Disk, i: nat): (s: Bytes)
    requires i <= |info.AllFiles()|
    decreases |info.AllFiles()| - i
  {
    if i == |info.AllFiles()| then []
    else View(Content(disk, PathOf(info, i)), info.AllFiles()[i].length) + FlatFrom(info, disk, i + 1)
  }

  /** The torrent as one array: all files end to end. */
  ghost function Flat(info: Info, disk: Disk): (s: Bytes)
  {
    FlatFrom(info, disk, 0)
  }

  lemma {:induction false} FlatFromAt(info: Info, disk: Disk, i: nat, j: nat, offset: nat)
    requires i <= j < |info.AllFiles()| && offset < info.AllFiles()[j].length
    ensures var files := info.AllFiles(); var k := Start(files, j) - Start(files, i) + offset;
            && 0 <= k < |FlatFrom(info, disk, i)|
            && FlatFrom(info, disk, i)[k] == ByteAt(Content(disk, PathOf(info, j)), offset)
    decreases j - i
  {
    hide Start, Content, ByteAt;
    var head, tail := View(Content(disk, PathOf(info, i)), info.AllFiles()[i].length), FlatFrom(info, disk, i + 1);
    assert FlatFrom(info, disk, i) == head + tail;
    if i < j {
      FlatFromAt(info, disk, i + 1, j, offset);
      StartStep(info.AllFiles(), i);
      var k := Start(info.AllFiles(), j) - Start(info.AllFiles(), i) + offset;
      assert (head + tail)[k] == tail[k - |head|];
    }
  }

  lemma {:induction false} FlatFromLength(info: Info, disk: Disk, i: nat)
    requires i <= |info.AllFiles()|
    ensures |FlatFrom(info, disk, i)| == Total(info) - Start(info.AllFiles(), i)
    decreases |info.AllFiles()| - i
  {
    var files := info.AllFiles();
    if i < |files| {
      FlatFromLength(info, disk, i + 1);
      StartStep(files, i);
    } else {
      assert files[..i] == files;
    }
  }

  lemma FlatLength(info: Info, disk: Disk)
    ensures |Flat(info, disk)| == Total(info)
  {
    FlatFromLength(info, disk, 0);
  }

  /** The byte at a flat offset is the byte at the info the search finds for it. */
  lemma FlatAt(info: Info, disk: Disk, offset: nat)
    requires offset < Total(info)
    ensures var at := Locate(info, offset);
            && at.At? && 0 <= at.offset < info.AllFiles()[at.index].length
            && offset < |Flat(info, disk)|
            && Flat(info, disk)[offset] == ByteAt(Content(disk, PathOf(info, at.index)), at.offset)
  {
    LocateInRange(info, offset);
    var at := Locate(info, offset);
    FlatFromAt(info, disk, 0, at.index, at.offset);
  }

  // ---------- Writing ----------

  datatype Status = Done | Short | OsError | Panicked

  datatype Wrote = Wrote(disk: Disk, n: nat, status: Status)

  /** The write loop; `denied` are the paths that the system refuses to open. */
  function WriteFrom(info: Info, denied: set<string>, disk: Disk, p: Bytes, offset: int): (w: Wrote)
    ensures w.n <= |p|
    decreases |p|
  {
    if p == [] then Wrote(disk, 0, Done)
    else
      var at := Locate(info, offset);
      if at.Panics? then Wrote(disk, 0, Panicked)
      else
        var length := info.AllFiles()[at.index].length;
        if length == 0 || length == at.offset then Wrote(disk, 0, Short)
        else
          var path := PathOf(info, at.index);
          if path in denied then Wrote(disk, 0, OsError)
          else if at.offset < 0 then Wrote(Created(disk, path), 0, OsError)
          else
            var k := Min(|p|, length - at.offset);
            var w := WriteFrom(info, denied, OsWrite(disk, path, at.offset, p[..k]), p[k..], offset + k);
            Wrote(w.disk, k + w.n, w.status)
  }

  function Spliced(flat: Bytes, offset: int, d: Bytes): (s: Bytes)
    requires 0 <= offset <= offset + |d| <= |flat|
  {
    seq(|flat|, k requires 0 <= k < |flat| => if offset <= k < offset + |d| then d[k - offset] else flat[k])
  }

  lemma SplicedTwice(flat: Bytes, offset: int, p: Bytes, k: nat, m: nat)
    requires k + m <= |p| && 0 <= offset <= offset + k + m <= |flat|
    ensures Spliced(Spliced(flat, offset, p[..k]), offset + k, p[k..][..m]) == Spliced(flat, offset, p[..k + m])
  {
    assert p[k..][..m] == p[k..k + m];
  }

  /** Another info in the flat array lies in another file, or elsewhere in the same one. */
  lemma Elsewhere(info: Info, offset: int, k: int)
    requires 0 <= offset < Total(info) && 0 <= k < Total(info)
    ensures var at, ak, files := Locate(info, offset), Locate(info, k), info.AllFiles();
            && at.At? && ak.At? && 0 <= at.offset < files[at.index].length && 0 <= ak.offset < files[ak.index].length
            && (at.index == ak.index ==> k - offset == ak.offset - at.offset)
            && (at.index < ak.index ==> offset - at.offset + files[at.index].length <= k)
            && (ak.index < at.index ==> k < offset - at.offset)
  {
    hide Start, Locate;
    var at, ak, files := Locate(info, offset), Locate(info, k), info.AllFiles();
    LocateInRange(info, offset);
    LocateInRange(info, k);
    if ak.index < at.index {
      StartStep(files, ak.index);
      StartMonotone(files, ak.index + 1, at.index);
    } else if at.index < ak.index {
      StartStep(files, at.index);
      StartMonotone(files, at.index + 1, ak.index);
    }
  }

  lemma SplicedSlice(flat: Bytes, offset: int, d: Bytes, from: int, to: int)
    requires 0 <= offset <= offset + |d| <= |flat| && 0 <= from <= to <= |flat|
    ensures offset <= from && to <= offset + |d| ==>
              Spliced(flat, offset, d)[from..to] == d[from - offset..to - offset]
    ensures to <= offset || offset + |d| <= from ==> Spliced(flat, offset, d)[from..to] == flat[from..to]
  {
    hide Spliced;
    SplicedAt(flat, offset, d);
    if offset <= from && to <= offset + |d| { SameSlice(Spliced(flat, offset, d), from, d, from - offset, to - from); }
    if to <= offset || offset + |d| <= from { SameSlice(Spliced(flat, offset, d), from, flat, from, to - from); }
  }

  lemma SameSlice(a: Bytes, i: nat, b: Bytes, j: nat, n: nat)
    requires i + n <= |a| && j + n <= |b|
    requires forall k :: i <= k < i + n ==> a[k] == b[k - i + j]
    ensures a[i..i + n] == b[j..j + n]
  {
    var x, y := a[i..i + n], b[j..j + n];
    forall k | 0 <= k < |x| ensures x[k] == y[k] {
      assert a[i + k] == b[j + k];
    }
  }

  lemma SplicedAt(flat: Bytes, offset: int, d: Bytes)
    requires 0 <= offset <= offset + |d| <= |flat|
    ensures var r := Spliced(flat, offset, d);
            && |r| == |flat|
            && forall k :: 0 <= k < |flat| ==> r[k] == if offset <= k < offset + |d| then d[k - offset] else flat[k]
  {
  }

  /** One system write, inside one file, changes exactly that stretch of the flat array. */
  lemma OneFileWrite(info: Info, disk: Disk, offset: int, d: Bytes)
    requires Distinct(info) && 0 <= offset < Total(info) && d != []
    requires var at := Locate(info, offset); at.At? && 0 <= at.offset <= info.AllFiles()[at.index].length - |d|
    ensures offset + |d| <= Total(info) == |Flat(info, disk)|
    ensures var at := Locate(info, offset);
            Flat(info, OsWrite(disk, PathOf(info, at.index), at.offset, d)) == Spliced(Flat(info, disk), offset, d)
  {
    hide Flat, Locate, Overlay, Start;
    var files, at := info.AllFiles(), Locate(info, offset);
    LocateInRange(info, offset);
    StartStep(files, at.index);
    var disk' := OsWrite(disk, PathOf(info, at.index), at.offset, d);
    FlatLength(info, disk);
    FlatLength(info, disk');
    forall k | 0 <= k < Total(info)
      ensures Flat(info, disk')[k] == Spliced(Flat(info, disk), offset, d)[k]
    {
      FlatAt(info, disk, k);
      FlatAt(info, disk', k);
      Elsewhere(info, offset, k);
    }
  }

  /** The flat offset is held by a file that the system refuses to open. */
  ghost predicate Denied(info: Info, denied: set<string>, offset: int)
  {
    var at := Locate(info, offset);
    at.At? && PathOf(info, at.index) in denied
  }

  /** How far a write inside the flat range gets, and what it reports. */
  ghost predicate Stops(info: Info, denied: set<string>, p: Bytes, offset: int, n: nat, status: Status)
  {
    var rest := Total(info) - offset;
    && n <= Min(|p|, rest)
    && status == (if n == |p| then Done else if n == rest then Short else OsError)
    && (n < Min(|p|, rest) ==> Denied(info, denied, offset + n))
  }

  /** The part of `p` that goes to the file holding `offset`. */
  function Chunk(info: Info, p: Bytes, offset: int): (k: nat)
    requires var at := Locate(info, offset); at.At? && 0 <= at.offset
    ensures k <= |p|
  {
    var at := Locate(info, offset);
    Min(|p|, info.AllFiles()[at.index].length - at.offset)
  }

  /** There is a file to write to at the offset. */
  ghost predicate Enters(info: Info, denied: set<string>, offset: int)
  {
    offset < Total(info) && !Denied(info, denied, offset)
  }

  lemma WriteNothing(info: Info, denied: set<string>, disk: Disk, p: Bytes, offset: int)
    requires 0 <= offset <= Total(info) && (p == [] || !Enters(info, denied, offset))
    ensures WriteFrom(info, denied, disk, p, offset)
            == Wrote(disk, 0, if p == [] then Done else if offset == Total(info) then Short else OsError)
  {
    hide Start, Locate;
    LocateInRange(info, offset);
    if offset == Total(info) { StartStep(info.AllFiles(), Locate(info, offset).index); }
  }

  lemma WriteStep(info: Info, denied: set<string>, disk: Disk, p: Bytes, offset: int)
    requires 0 <= offset && p != [] && Enters(info, denied, offset)
    ensures var at := Locate(info, offset); at.At? && 0 <= at.offset
    ensures var at, k := Locate(info, offset), Chunk(info, p, offset);
            0 < k <= info.AllFiles()[at.index].length - at.offset && offset + k <= Total(info)
    ensures var at, k := Locate(info, offset), Chunk(info, p, offset);
            var w := WriteFrom(info, denied, OsWrite(disk, PathOf(info, at.index), at.offset, p[..k]), p[k..], offset + k);
            WriteFrom(info, denied, disk, p, offset) == Wrote(w.disk, k + w.n, w.status)
  {
    hide Start, Locate, OsWrite, WriteFrom;
    LocateInRange(info, offset);
    StartStep(info.AllFiles(), Locate(info, offset).index);
    WriteUnfold(info, denied, disk, p, offset, Chunk(info, p, offset));
  }

  /**
    A write inside the flat range refines a write to one array: it puts the first n bytes at
    the offset and changes nothing else, it stops only at the end of the torrent or at a file
    that cannot be opened, and it reports an error exactly when it stopped early.
   */
  lemma {:induction false} WriteRefines(info: Info, denied: set<string>, disk: Disk, p: Bytes, offset: int)
    requires Distinct(info) && 0 <= offset <= Total(info)
    ensures var w := WriteFrom(info, denied, disk, p, offset);
            && Stops(info, denied, p, offset, w.n, w.status)
            && offset + w.n <= |Flat(info, disk)|
            && Flat(info, w.disk) == Spliced(Flat(info, disk), offset, p[..w.n])
    decreases |p|
  {
    hide Flat, Locate, Overlay, Start, Distinct, Total, Chunk, Denied, WriteFrom;
    FlatLength(info, disk);
    var w := WriteFrom(info, denied, disk, p, offset);
    if p == [] || !Enters(info, denied, offset) {
      WriteNothing(info, denied, disk, p, offset);
      assert Flat(info, disk) == Spliced(Flat(info, disk), offset, p[..0]);
    } else {
      WriteStep(info, denied, disk, p, offset);
      var at, k := Locate(info, offset), Chunk(info, p, offset);
      var disk1 := OsWrite(disk, PathOf(info, at.index), at.offset, p[..k]);
      var w1 := WriteFrom(info, denied, disk1, p[k..], offset + k);
      OneFileWrite(info, disk, offset, p[..k]);
      WriteRefines(info, denied, disk1, p[k..], offset + k);
      SplicedTwice(Flat(info, disk), offset, p, k, w1.n);
      assert offset + k + w1.n == offset + w.n;
    }
  }

  // ---------- Exactly when the files act as one array ----------

  /** Every write that fits is a write to one array, whatever the disk held. */
  ghost predicate ActsAsOneArray(info: Info)
  {
    forall disk: Disk, p: Bytes, offset: int :: 0 <= offset && offset + |p| <= Total(info) ==>
      FitsOneArray(info, disk, p, offset, WriteFrom(info, {}, disk, p, offset))
  }

  ghost predicate FitsOneArray(info: Info, disk: Disk, p: Bytes, offset: int, w: Wrote)
  {
    && 0 <= offset && offset + |p| <= |Flat(info, disk)|
    && w.n == |p| && w.status == Done
    && Flat(info, w.disk) == Spliced(Flat(info, disk), offset, p)
  }

  lemma LocateStart(info: Info, i: nat)
    requires i < |info.AllFiles()| && info.AllFiles()[i].length > 0
    ensures Start(info.AllFiles(), i) < Total(info)
    ensures Locate(info, Start(info.AllFiles(), i)) == At(i, 0)
  {
    hide Start, Locate;
    var files := info.AllFiles();
    StartStep(files, i);
    LocateInRange(info, Start(files, i));
    var at := Locate(info, Start(files, i));
    if at.index < i {
      StartStep(files, at.index);
      StartMonotone(files, at.index + 1, i);
    } else if i < at.index {
      StartMonotone(files, i + 1, at.index);
    }
  }

  /** Two files on one path: a byte written to the one shows up in the other. */
  lemma SharedPathLeaks(info: Info, i: nat, j: nat)
    requires i < j < |info.AllFiles()| && info.AllFiles()[i].length > 0 && info.AllFiles()[j].length > 0
    requires PathOf(info, i) == PathOf(info, j)
    ensures !ActsAsOneArray(info)
  {
    hide Start, Locate, Flat;
    var a, b := Start(info.AllFiles(), i), Start(info.AllFiles(), j);
    LocateStart(info, i);
    LocateStart(info, j);
    StartStep(info.AllFiles(), i);
    StartMonotone(info.AllFiles(), i + 1, j);
    var disk: Disk, p: Bytes := map[], [1];
    var disk' := OsWrite(disk, PathOf(info, i), 0, p);
    assert WriteFrom(info, {}, disk', [], a + 1) == Wrote(disk', 0, Done);
    assert p[..1] == p && p[1..] == [];
    var w := WriteFrom(info, {}, disk, p, a);
    assert w == Wrote(disk', 1, Done);
    FlatAt(info, disk, b);
    FlatAt(info, disk', b);
    assert ByteAt(Content(disk', PathOf(info, j)), 0) == 1;
    assert !FitsOneArray(info, disk, p, a, w);
  }

  /** The refinement holds of exactly the layouts whose data-bearing paths are distinct. */
  lemma OneArrayExactly(info: Info)
    ensures ActsAsOneArray(info) <==> Distinct(info)
  {
    if Distinct(info) {
      forall disk: Disk, p: Bytes, offset: int | 0 <= offset && offset + |p| <= Total(info)
        ensures FitsOneArray(info, disk, p, offset, WriteFrom(info, {}, disk, p, offset))
      {
        WriteRefines(info, {}, disk, p, offset);
        assert p[..|p|] == p;
      }
    } else {
      var i, j :| 0 <= i < j < |info.AllFiles()| && info.AllFiles()[i].length > 0 && info.AllFiles()[j].length > 0
                  && PathOf(info, i) == PathOf(info, j);
      SharedPathLeaks(info, i, j);
    }
  }

  // ---------- Offsets outside the torrent ----------

  lemma FlatOnContent(info: Info, a: Disk, b: Disk)
    requires forall path :: Content(a, path) == Content(b, path)
    ensures Flat(info, a) == Flat(info, b)
  {
    hide Flat;
    FlatLength(info, a);
    FlatLength(info, b);
    forall k | 0 <= k < Total(info) ensures Flat(info, a)[k] == Flat(info, b)[k] {
      FlatAt(info, a, k);
      FlatAt(info, b, k);
    }
  }

  lemma WriteBeforeStart(info: Info, denied: set<string>, disk: Disk, p: Bytes, offset: int)
    requires offset < 0 && p != []
    ensures var w := WriteFrom(info, denied, disk, p, offset);
            w.n == 0 && w.status in {Short, OsError} && Flat(info, w.disk) == Flat(info, disk)
  {
    hide Flat;
    FlatOnContent(info, WriteFrom(info, denied, disk, p, offset).disk, disk);
  }

  function LastLength(info: Info): nat
  {
    var files := info.AllFiles();
    files[|files| - 1].length
  }

  lemma LastStart(info: Info)
    ensures var files := info.AllFiles(); Start(files, |files| - 1) + LastLength(info) == Total(info)
  {
    var files := info.AllFiles();
    StartStep(files, |files| - 1);
    assert files[..|files|] == files;
  }

  /** Past the end, an offset that does not panic is read as one file-length earlier. */
  lemma LocateWraps(info: Info, offset: int)
    requires info.IsDir() && Total(info) < offset <= Total(info) + LastLength(info)
    ensures Locate(info, offset) == At(|info.files| - 1, offset - Total(info))
    ensures if offset == Total(info) + LastLength(info)
            then var at := Locate(info, offset - LastLength(info)); at.At? && at.offset == info.files[at.index].length
            else Locate(info, offset - LastLength(info)) == Locate(info, offset)
  {
    hide Locate, Start;
    var files, last := info.AllFiles(), LastLength(info);
    LocateBeyond(info, offset);
    LastStart(info);
    LocateInRange(info, offset - last);
    var at := Locate(info, offset - last);
    StartStep(files, at.index);
    if at.index < |files| - 1 { StartMonotone(files, at.index + 1, |files| - 1); }
  }

  /** Two offsets found at the same info, with the same continuation, write the same. */
  lemma WriteSamePlace(info: Info, denied: set<string>, disk: Disk, p: Bytes, a: int, b: int)
    requires p != [] && Locate(info, a) == Locate(info, b)
    requires var at := Locate(info, a);
             at.At? && 0 <= at.offset && Chunk(info, p, a) < |p| && PathOf(info, at.index) !in denied ==>
               var k := Chunk(info, p, a);
               var disk' := OsWrite(disk, PathOf(info, at.index), at.offset, p[..k]);
               WriteFrom(info, denied, disk', p[k..], a + k) == WriteFrom(info, denied, disk', p[k..], b + k)
    ensures WriteFrom(info, denied, disk, p, a) == WriteFrom(info, denied, disk, p, b)
  {
    hide Locate, OsWrite;
    var at := Locate(info, a);
    if at.At? && 0 <= at.offset < info.AllFiles()[at.index].length && Chunk(info, p, a) == |p| {
      assert p[|p|..] == [];
      var disk' := OsWrite(disk, PathOf(info, at.index), at.offset, p[..|p|]);
      assert WriteFrom(info, denied, disk', [], a + |p|) == WriteFrom(info, denied, disk', [], b + |p|);
    }
  }

  lemma WriteAtEnd(info: Info, denied: set<string>, disk: Disk, p: Bytes, offset: int)
    requires p != []
    requires var at := Locate(info, offset); at.At? && at.offset == info.AllFiles()[at.index].length
    ensures WriteFrom(info, denied, disk, p, offset) == Wrote(disk, 0, Short)
  {
  }

  /**
    Past the end of a directory torrent a write does not fail: it lands in the last file, one
    length of that file before where it was aimed, and only then runs out of room.
   */
  lemma {:induction false} WriteBeyond(info: Info, denied: set<string>, disk: Disk, p: Bytes, offset: int)
    requires offset > Total(info) && p != []
    ensures var last := LastLength(info);
            info.IsDir() && offset <= Total(info) + last ==>
              WriteFrom(info, denied, disk, p, offset) == WriteFrom(info, denied, disk, p, offset - last)
    decreases |p|
  {
    hide Locate, Start, Overlay, WriteFrom;
    var last := LastLength(info);
    if info.IsDir() && offset <= Total(info) + last {
      LocateWraps(info, offset);
      if offset == Total(info) + last {
        WriteAtEnd(info, denied, disk, p, offset);
        WriteAtEnd(info, denied, disk, p, offset - last);
      } else {
        var at, k := Locate(info, offset), Chunk(info, p, offset);
        if k < |p| {
          WriteBeyond(info, denied, OsWrite(disk, PathOf(info, at.index), at.offset, p[..k]), p[k..], offset + k);
        }
        WriteSamePlace(info, denied, disk, p, offset, offset - last);
      }
    }
  }

  lemma WritePanics(info: Info, denied: set<string>, disk: Disk, p: Bytes, offset: int)
    requires offset > Total(info) && p != []
    ensures !(info.IsDir() && offset <= Total(info) + LastLength(info)) ==>
              WriteFrom(info, denied, disk, p, offset) == Wrote(disk, 0, Panicked)
  {
    LocateBeyond(info, offset);
  }

  /** A write aimed past the end writes no byte unless it can reach, and open, a directory's last file. */
  lemma WriteBeyondHarmless(info: Info, denied: set<string>, disk: Disk, p: Bytes, offset: int)
    requires offset > Total(info) && p != []
    ensures WriteFrom(info, denied, disk, p, offset).n == 0
            <==> !(&& info.IsDir() && offset < Total(info) + LastLength(info)
                   && PathOf(info, |info.files| - 1) !in denied)
  {
    hide Locate, OsWrite;
    LocateBeyond(info, offset);
  }

  // ---------- Reading ----------

  datatype Got = Got(data: Bytes, status: Status)

  /** os.File.ReadAt: as much of the wanted stretch as the file holds. */
  function OsRead(c: Bytes, offset: nat, want: nat): (d: Bytes)
    ensures |d| <= want && (d == [] || offset + |d| <= |c|)
    ensures |d| < want ==> |c| <= offset + |d|
    ensures forall k :: 0 <= k < |d| ==> d[k] == c[offset + k]
  {
    if offset <= |c| then c[offset..Min(|c|, offset + want)] else []
  }

  function ReadFrom(info: Info, denied: set<string>, disk: Disk, want: nat, offset: int): (g: Got)
    ensures |g.data| <= want
    decreases want
  {
    if want == 0 then Got([], Done)
    else
      var at := Locate(info, offset);
      if at.Panics? then Got([], Panicked)
      else
        var length := info.AllFiles()[at.index].length;
        if length == 0 || length == at.offset then Got([], Short)
        else
          var path := PathOf(info, at.index);
          if path in denied || path !in disk || at.offset < 0 then Got([], OsError)
          else
            var k := Min(want, length - at.offset);
            var d := OsRead(disk[path], at.offset, k);
            if |d| < k then Got(d, Short)
            else
              var g := ReadFrom(info, denied, disk, want - k, offset + k);
              Got(d + g.data, g.status)
  }

  /** The byte at the flat offset is there to be read. */
  ghost predicate Readable(info: Info, denied: set<string>, disk: Disk, offset: int)
  {
    var at := Locate(info, offset);
    && at.At? && 0 <= at.offset < info.AllFiles()[at.index].length
    && var path := PathOf(info, at.index);
    && path !in denied && path in disk && at.offset < |disk[path]|
  }

  /** The bytes read are the flat array's, and reading stops just before the first unreadable one. */
  ghost predicate ReadsFlat(info: Info, denied: set<string>, disk: Disk, want: nat, offset: int, g: Got)
  {
    && |g.data| <= Min(want, Total(info) - offset)
    && 0 <= offset && offset + |g.data| <= |Flat(info, disk)|
    && g.data == Flat(info, disk)[offset..offset + |g.data|]
    && (g.status == Done <==> |g.data| == want)
    && (forall k :: offset <= k < offset + |g.data| ==> Readable(info, denied, disk, k))
    && (|g.data| < Min(want, Total(info) - offset) ==> !Readable(info, denied, disk, offset + |g.data|))
  }

  /** Within one file, consecutive flat offsets are consecutive positions. */
  lemma LocateNext(info: Info, offset: int, d: nat)
    requires 0 <= offset < Total(info)
    requires var at := Locate(info, offset); at.At? && at.offset + d < info.AllFiles()[at.index].length
    ensures offset + d < Total(info)
    ensures var at := Locate(info, offset); Locate(info, offset + d) == At(at.index, at.offset + d)
  {
    hide Locate, Start;
    var at := Locate(info, offset);
    LocateInRange(info, offset);
    StartStep(info.AllFiles(), at.index);
    Elsewhere(info, offset, offset + d);
  }

  lemma OneFileRead(info: Info, denied: set<string>, disk: Disk, want: nat, offset: int, d: Bytes)
    requires 0 <= offset < Total(info) && 0 < want
    requires var at := Locate(info, offset);
             && at.At? && 0 <= at.offset <= info.AllFiles()[at.index].length - want
             && PathOf(info, at.index) !in denied && PathOf(info, at.index) in disk
             && d == OsRead(disk[PathOf(info, at.index)], at.offset, want)
    ensures ReadsFlat(info, denied, disk, want, offset, Got(d, if |d| == want then Done else Short))
    ensures offset + want <= Total(info)
  {
    hide Flat, Locate, OsRead;
    FlatLength(info, disk);
    LocateNext(info, offset, want - 1);
    forall k | offset <= k < offset + want
      ensures Readable(info, denied, disk, k) <==> k < offset + |d|
      ensures k < offset + |d| ==> Flat(info, disk)[k] == d[k - offset]
    {
      LocateNext(info, offset, k - offset);
      FlatAt(info, disk, k);
      if k < offset + |d| {
        var at := Locate(info, offset);
        assert d[k - offset] == disk[PathOf(info, at.index)][at.offset + (k - offset)];
      }
    }
    assert d == Flat(info, disk)[offset..offset + |d|];
  }

  lemma ReadsFlatTwice(info: Info, denied: set<string>, disk: Disk, k: nat, want: nat, offset: int, d: Bytes, g: Got)
    requires ReadsFlat(info, denied, disk, k, offset, Got(d, Done))
    requires ReadsFlat(info, denied, disk, want, offset + k, g)
    ensures ReadsFlat(info, denied, disk, k + want, offset, Got(d + g.data, g.status))
  {
    hide Flat, Readable;
    var n := |d + g.data|;
    assert offset + k + |g.data| == offset + n;
  }

  lemma ReadNothing(info: Info, denied: set<string>, disk: Disk, want: nat, offset: int)
    requires 0 <= offset <= Total(info)
    requires want == 0 || offset == Total(info) || !Readable(info, denied, disk, offset)
    ensures var g := ReadFrom(info, denied, disk, want, offset); g.data == [] && (g.status == Done <==> want == 0)
  {
    hide Start, Locate;
    LocateInRange(info, offset);
    StartStep(info.AllFiles(), Locate(info, offset).index);
  }

  lemma ReadStep(info: Info, denied: set<string>, disk: Disk, want: nat, offset: int)
    requires 0 <= offset < Total(info) && want > 0 && Readable(info, denied, disk, offset)
    ensures var at := Locate(info, offset);
            var k := Min(want, info.AllFiles()[at.index].length - at.offset);
            var d := OsRead(disk[PathOf(info, at.index)], at.offset, k);
            && (|d| < k ==> ReadFrom(info, denied, disk, want, offset) == Got(d, Short))
            && (|d| == k ==>
                  var g := ReadFrom(info, denied, disk, want - k, offset + k);
                  ReadFrom(info, denied, disk, want, offset) == Got(d + g.data, g.status))
  {
    hide Locate, OsRead;
  }

  /** A read inside the flat range refines a read of one array. */
  lemma {:induction false} ReadRefines(info: Info, denied: set<string>, disk: Disk, want: nat, offset: int)
    requires 0 <= offset <= Total(info)
    ensures ReadsFlat(info, denied, disk, want, offset, ReadFrom(info, denied, disk, want, offset))
    decreases want
  {
    hide Flat, Locate, OsRead, Start, ReadFrom, ReadsFlat, Total;
    FlatLength(info, disk);
    if want == 0 || offset == Total(info) || !Readable(info, denied, disk, offset) {
      ReadNothing(info, denied, disk, want, offset);
      ReadsNone(info, denied, disk, want, offset, ReadFrom(info, denied, disk, want, offset));
    } else {
      var at := Locate(info, offset);
      var k := Min(want, info.AllFiles()[at.index].length - at.offset);
      var d := OsRead(disk[PathOf(info, at.index)], at.offset, k);
      ReadStep(info, denied, disk, want, offset);
      OneFileRead(info, denied, disk, k, offset, d);
      if |d| == k {
        ReadRefines(info, denied, disk, want - k, offset + k);
        ReadsFlatTwice(info, denied, disk, k, want - k, offset, d, ReadFrom(info, denied, disk, want - k, offset + k));
      } else {
        ReadsFlatShort(info, denied, disk, k, want, offset, d);
      }
    }
  }

  lemma ReadsNone(info: Info, denied: set<string>, disk: Disk, want: nat, offset: int, g: Got)
    requires 0 <= offset <= Total(info) == |Flat(info, disk)|
    requires want == 0 || offset == Total(info) || !Readable(info, denied, disk, offset)
    requires g.data == [] && (g.status == Done <==> want == 0)
    ensures ReadsFlat(info, denied, disk, want, offset, g)
  {
    hide Flat, Readable, Total;
  }

  lemma ReadsFlatShort(info: Info, denied: set<string>, disk: Disk, k: nat, want: nat, offset: int, d: Bytes)
    requires ReadsFlat(info, denied, disk, k, offset, Got(d, Short)) && |d| < k <= want
    requires offset + k <= Total(info)
    ensures ReadsFlat(info, denied, disk, want, offset, Got(d, Short))
  {
    hide Flat, Readable, Total;
  }

  /** Past the end of a directory torrent a read is taken from the last file too, one length of it earlier. */
  lemma {:induction false} ReadBeyond(info: Info, denied: set<string>, disk: Disk, want: nat, offset: int)
    requires offset > Total(info) && want > 0
    ensures var last := LastLength(info);
            info.IsDir() && offset <= Total(info) + last ==>
              ReadFrom(info, denied, disk, want, offset) == ReadFrom(info, denied, disk, want, offset - last)
    ensures !(info.IsDir() && offset <= Total(info) + LastLength(info)) ==>
              ReadFrom(info, denied, disk, want, offset) == Got([], Panicked)
    decreases want
  {
    hide Locate, Start, OsRead, ReadFrom;
    var last := LastLength(info);
    LocateBeyond(info, offset);
    ReadEnds(info, denied, disk, want, offset);
    if info.IsDir() && offset <= Total(info) + last {
      LocateWraps(info, offset);
      ReadEnds(info, denied, disk, want, offset - last);
      var k := Min(want, Total(info) + last - offset);
      if 0 < k < want { ReadBeyond(info, denied, disk, want - k, offset + k); }
      if 0 < k { ReadSamePlace(info, denied, disk, want, offset, offset - last); }
    }
  }

  lemma ReadEnds(info: Info, denied: set<string>, disk: Disk, want: nat, offset: int)
    requires want > 0
    ensures var at := Locate(info, offset);
            && (at.Panics? ==> ReadFrom(info, denied, disk, want, offset) == Got([], Panicked))
            && (at.At? && at.offset == info.AllFiles()[at.index].length ==>
                  ReadFrom(info, denied, disk, want, offset) == Got([], Short))
  {
    hide Locate, OsRead;
  }

  /** Two offsets found at the same place, with the same continuation, read the same. */
  lemma ReadSamePlace(info: Info, denied: set<string>, disk: Disk, want: nat, a: int, b: int)
    requires want > 0 && Locate(info, a) == Locate(info, b)
    requires var at := Locate(info, a);
             at.At? && 0 <= at.offset ==>
               var k := Min(want, info.AllFiles()[at.index].length - at.offset);
               0 < k < want ==> ReadFrom(info, denied, disk, want - k, a + k) == ReadFrom(info, denied, disk, want - k, b + k)
    ensures ReadFrom(info, denied, disk, want, a) == ReadFrom(info, denied, disk, want, b)
  {
    hide Locate, OsRead;
    assert ReadFrom(info, denied, disk, 0, a + want) == ReadFrom(info, denied, disk, 0, b + want);
  }

  // ---------- Reading back what was written ----------

  /** Files only appear and grow. */
  ghost predicate Grew(a: Disk, b: Disk)
  {
    forall path :: path in a ==> path in b && |a[path]| <= |b[path]|
  }

  lemma {:induction false} WriteGrows(info: Info, denied: set<string>, disk: Disk, p: Bytes, offset: int)
    ensures Grew(disk, WriteFrom(info, denied, disk, p, offset).disk)
    decreases |p|
  {
    hide Locate, Overlay;
    var at := Locate(info, offset);
    if p != [] && at.At? && 0 <= at.offset < info.AllFiles()[at.index].length {
      var k := Min(|p|, info.AllFiles()[at.index].length - at.offset);
      WriteGrows(info, denied, OsWrite(disk, PathOf(info, at.index), at.offset, p[..k]), p[k..], offset + k);
    }
  }

  lemma {:induction false} WrittenIsReadable(info: Info, denied: set<string>, disk: Disk, p: Bytes, offset: int, j: int)
    requires 0 <= offset <= Total(info)
    requires offset <= j < offset + WriteFrom(info, denied, disk, p, offset).n
    ensures Readable(info, denied, WriteFrom(info, denied, disk, p, offset).disk, j)
    decreases |p|
  {
    hide Locate, Overlay, WriteFrom, Start, Total;
    if p == [] || !Enters(info, denied, offset) {
      WriteNothing(info, denied, disk, p, offset);
    } else {
      WriteStep(info, denied, disk, p, offset);
      var at, k := Locate(info, offset), Chunk(info, p, offset);
      var disk' := OsWrite(disk, PathOf(info, at.index), at.offset, p[..k]);
      if j < offset + k {
        LocateNext(info, offset, j - offset);
        WriteGrows(info, denied, disk', p[k..], offset + k);
        assert Readable(info, denied, disk', j);
      } else {
        WrittenIsReadable(info, denied, disk', p[k..], offset + k, j);
      }
    }
  }

  /** Reading any part of what a write stored gives back just those bytes, across all file boundaries. */
  lemma ReadAfterWrite(info: Info, denied: set<string>, disk: Disk, p: Bytes, offset: int, want: nat, from: int)
    requires Distinct(info) && 0 <= offset <= Total(info)
    requires offset <= from && from + want <= offset + WriteFrom(info, denied, disk, p, offset).n
    ensures ReadFrom(info, denied, WriteFrom(info, denied, disk, p, offset).disk, want, from)
            == Got(p[from - offset..from - offset + want], Done)
  {
    hide WriteFrom, ReadFrom, Readable, Flat, Distinct, Total, Locate, Denied, Spliced;
    var w := WriteFrom(info, denied, disk, p, offset);
    WriteRefines(info, denied, disk, p, offset);
    ReadRefines(info, denied, w.disk, want, from);
    var g := ReadFrom(info, denied, w.disk, want, from);
    if |g.data| < want { WrittenIsReadable(info, denied, disk, p, offset, from + |g.data|); }
    assert |g.data| == want;
    SplicedSlice(Flat(info, disk), offset, p[..w.n], from, from + want);
    assert p[..w.n][from - offset..from - offset + want] == p[from - offset..from - offset + want];
  }

  /** Bytes outside the written stretch read as before. */
  lemma ReadElsewhere(info: Info, denied: set<string>, disk: Disk, p: Bytes, offset: int, want: nat, from: int)
    requires Distinct(info) && 0 <= offset <= Total(info) && 0 <= from && from + want <= Total(info)
    requires from + want <= offset || offset + WriteFrom(info, denied, disk, p, offset).n <= from
    requires ReadFrom(info, denied, disk, want, from).status == Done
    ensures ReadFrom(info, denied, WriteFrom(info, denied, disk, p, offset).disk, want, from)
            == ReadFrom(info, denied, disk, want, from)
  {
    hide WriteFrom, ReadFrom, Flat, Distinct, Total, Locate, Denied, Spliced;
    var w := WriteFrom(info, denied, disk, p, offset);
    WriteRefines(info, denied, disk, p, offset);
    WriteGrows(info, denied, disk, p, offset);
    ReadRefines(info, denied, disk, want, from);
    ReadRefines(info, denied, w.disk, want, from);
    var g, g' := ReadFrom(info, denied, disk, want, from), ReadFrom(info, denied, w.disk, want, from);
    assert forall k :: Readable(info, denied, disk, k) ==> Readable(info, denied, w.disk, k);
    assert |g'.data| == want;
    SplicedSlice(Flat(info, disk), offset, p[..w.n], from, from + want);
  }

  lemma WriteNone(info: Info, denied: set<string>, disk: Disk, p: Bytes, offset: int)
    requires p == []
    ensures WriteFrom(info, denied, disk, p, offset) == Wrote(disk, 0, Done)
  {
  }

  /** The turn of the write loop that ends it. */
  lemma WriteLoopEnds(info: Info, denied: set<string>, disk: Disk, p: Bytes, offset: int)
    requires p != []
    ensures var at, w := Locate(info, offset), WriteFrom(info, denied, disk, p, offset);
            if at.Panics? then w == Wrote(disk, 0, Panicked)
            else
              var length, path := info.AllFiles()[at.index].length, PathOf(info, at.index);
              if length == 0 || length == at.offset then w == Wrote(disk, 0, Short)
              else if path in denied then w == Wrote(disk, 0, OsError)
              else at.offset < 0 ==> w == Wrote(Created(disk, path), 0, OsError)
  {
    hide Locate, OsWrite;
  }

  lemma WriteUnfold(info: Info, denied: set<string>, disk: Disk, p: Bytes, offset: int, k: nat)
    requires p != []
    requires var at := Locate(info, offset);
             && at.At? && 0 <= at.offset < info.AllFiles()[at.index].length && PathOf(info, at.index) !in denied
             && k == Min(|p|, info.AllFiles()[at.index].length - at.offset)
    ensures var at := Locate(info, offset);
            var w := WriteFrom(info, denied, OsWrite(disk, PathOf(info, at.index), at.offset, p[..k]), p[k..], offset + k);
            WriteFrom(info, denied, disk, p, offset) == Wrote(w.disk, k + w.n, w.status)
  {
    hide Locate, OsWrite;
  }

  lemma ReadNone(info: Info, denied: set<string>, disk: Disk, offset: int)
    ensures ReadFrom(info, denied, disk, 0, offset) == Got([], Done)
  {
  }

  /** One turn of the read loop. */
  lemma ReadLoopStep(info: Info, denied: set<string>, disk: Disk, want: nat, offset: int)
    requires want > 0
    ensures var at, g := Locate(info, offset), ReadFrom(info, denied, disk, want, offset);
            if at.Panics? then g == Got([], Panicked)
            else
              var length, path := info.AllFiles()[at.index].length, PathOf(info, at.index);
              if length == 0 || length == at.offset then g == Got([], Short)
              else if path in denied || path !in disk || at.offset < 0 then g == Got([], OsError)
              else
                var k := Min(want, length - at.offset);
                var d := OsRead(disk[path], at.offset, k);
                && 0 < k
                && (|d| < k ==> g == Got(d, Short))
                && (|d| == k ==>
                      var g' := ReadFrom(info, denied, disk, want - k, offset + k);
                      g == Got(d + g'.data, g'.status))
  {
    hide Locate, OsRead;
  }

  // ---------- The reader and writer objects ----------

  /** The file system: what the files hold, and which paths cannot be opened. */
  class Machine {
    var files: Disk
    const denied: set<string>

    constructor (files: Disk, denied: set<string>)
      ensures this.files == files && this.denied == denied
    {
      this.files, this.denied := files, denied;
    }
  }

  class Writer {
    const info: Info
    const machine: Machine
    var open: set<string>     // the paths with a cached handle

    constructor (info: Info, machine: Machine)
      ensures this.info == info && this.machine == machine && Valid()
    {
      this.info, this.machine, this.open := info, machine, {};
    }

    ghost predicate Valid()
      reads this, machine
    {
      open !! machine.denied && open <= machine.files.Keys
    }

    method Open(path: string) returns (ok: bool)
      requires Valid()
      modifies `open, machine`files
      ensures Valid() && ok == (path !in machine.denied)
      ensures machine.files == if ok then Created(old(machine.files), path) else old(machine.files)
    {
      if path in open { return true; }
      if path in machine.denied { return false; }
      machine.files := Created(machine.files, path);
      open := open + {path};
      return true;
    }

    /** One turn of the loop: m bytes go to one file, or the loop stops. */
    method WriteOnce(p: Bytes, offset: int) returns (m: nat, stop: Option<Status>)
      requires Valid() && p != []
      modifies `open, machine`files
      ensures Valid() && m <= |p|
      ensures var whole := WriteFrom(info, machine.denied, old(machine.files), p, offset);
              if stop.Some? then m == 0 && whole == Wrote(machine.files, 0, stop.value)
              else
                var w := WriteFrom(info, machine.denied, machine.files, p[m..], offset + m);
                m > 0 && whole == Wrote(w.disk, m + w.n, w.status)
    {
      hide Locate, Overlay, WriteFrom;
      WriteLoopEnds(info, machine.denied, machine.files, p, offset);
      var found := GetFileByOffset(info, offset);
      if found.Panics? { return 0, Some(Panicked); }
      var length := info.AllFiles()[found.index].length;
      if length == 0 || length == found.offset { return 0, Some(Short); }
      var path := PathOf(info, found.index);
      var ok := Open(path);
      if !ok || found.offset < 0 { return 0, Some(OsError); }
      m, stop := Min(|p|, length - found.offset), None;
      WriteUnfold(info, machine.denied, old(machine.files), p, offset, m);
      assert OsWrite(machine.files, path, found.offset, p[..m]) == OsWrite(old(machine.files), path, found.offset, p[..m]);
      machine.files := OsWrite(machine.files, path, found.offset, p[..m]);
    }

    method WriteAt(p: Bytes, offset: int) returns (n: nat, status: Status)
      requires Valid()
      modifies `open, machine`files
      ensures Valid()
      ensures Wrote(machine.files, n, status) == WriteFrom(info, machine.denied, old(machine.files), p, offset)
    {
      hide WriteFrom;
      ghost var wanted := WriteFrom(info, machine.denied, machine.files, p, offset);
      n := 0;
      var at := offset;
      assert p[0..] == p;
      while n < |p|
        invariant Valid() && n <= |p|
        invariant var w := WriteFrom(info, machine.denied, machine.files, p[n..], at);
                  wanted == Wrote(w.disk, n + w.n, w.status)
        decreases |p| - n
      {
        var m, stop := WriteOnce(p[n..], at);
        if stop.Some? { return n, stop.value; }
        assert p[n..][m..] == p[n + m..];
        n, at := n + m, at + m;
      }
      WriteNone(info, machine.denied, machine.files, p[n..], at);
      return n, Done;
    }

    /** WriteBlock: the same, aimed at a piece. */
    method WriteBlock(index: nat, offset: nat, p: Bytes) returns (n: nat, status: Status)
      requires Valid()
      modifies `open, machine`files
      ensures Valid()
      ensures Wrote(machine.files, n, status)
              == WriteFrom(info, machine.denied, old(machine.files), p, index * info.pieceLength + offset)
    {
      hide WriteFrom;
      n, status := WriteAt(p, info.PieceOffset(index, offset));
    }
  }

  /** Fills part of the buffer. */
  method Store(p: array<Byte>, n: nat, d: Bytes)
    requires n + |d| <= p.Length
    modifies p
    ensures p[..n + |d|] == old(p[..n]) + d
    ensures p[n + |d|..] == old(p[n + |d|..])
  {
    forall k | 0 <= k < |d| { p[n + k] := d[k]; }
  }

  class Reader {
    const info: Info
    const machine: Machine
    var open: set<string>

    constructor (info: Info, machine: Machine)
      ensures this.info == info && this.machine == machine && Valid()
    {
      this.info, this.machine, this.open := info, machine, {};
    }

    ghost predicate Valid()
      reads this, machine
    {
      open !! machine.denied && open <= machine.files.Keys
    }

    method Open(path: string) returns (ok: bool)
      requires Valid()
      modifies `open
      ensures Valid() && ok == (path !in machine.denied && path in machine.files)
    {
      if path in open { return true; }
      if path in machine.denied || path !in machine.files { return false; }
      open := open + {path};
      return true;
    }

    /** One turn of the loop: the bytes one file yields, and whether the loop stops there. */
    method ReadOnce(want: nat, offset: int) returns (d: Bytes, stop: Option<Status>)
      requires Valid() && want > 0
      modifies `open
      ensures Valid() && |d| <= want
      ensures var whole := ReadFrom(info, machine.denied, machine.files, want, offset);
              if stop.Some? then whole == Got(d, stop.value)
              else
                var g := ReadFrom(info, machine.denied, machine.files, want - |d|, offset + |d|);
                d != [] && whole == Got(d + g.data, g.status)
    {
      hide Locate, OsRead, ReadFrom;
      ReadLoopStep(info, machine.denied, machine.files, want, offset);
      var found := GetFileByOffset(info, offset);
      if found.Panics? { return [], Some(Panicked); }
      var length := info.AllFiles()[found.index].length;
      if length == 0 || length == found.offset { return [], Some(Short); }
      var path := PathOf(info, found.index);
      var ok := Open(path);
      if !ok || found.offset < 0 { return [], Some(OsError); }
      var k := Min(want, length - found.offset);
      d := OsRead(machine.files[path], found.offset, k);
      stop := if |d| < k then Some(Short) else None;
    }

    method ReadAt(p: array<Byte>, offset: int) returns (n: nat, status: Status)
      requires Valid()
      modifies p, `open
      ensures Valid() && n <= p.Length
      ensures Got(p[..n], status) == ReadFrom(info, machine.denied, machine.files, p.Length, offset)
      ensures p[n..] == old(p[n..])
    {
      hide ReadFrom;
      ghost var wanted := ReadFrom(info, machine.denied, machine.files, p.Length, offset);
      n := 0;
      var at := offset;
      ghost var got: Bytes := [];
      assert got + wanted.data == wanted.data;
      while n < p.Length
        invariant Valid() && n <= p.Length
        invariant p[..n] == got && p[n..] == old(p[n..])
        invariant var g := ReadFrom(info, machine.denied, machine.files, p.Length - n, at);
                  wanted == Got(got + g.data, g.status)
        decreases p.Length - n
      {
        var d, stop := ReadOnce(p.Length - n, at);
        Store(p, n, d);
        n, at := n + |d|, at + |d|;
        if stop.Some? { return n, stop.value; }
        ConcatAssociative(got, d, ReadFrom(info, machine.denied, machine.files, p.Length - n, at).data);
        got := got + d;
      }
      ReadNone(info, machine.denied, machine.files, at);
      assert got + [] == got;
      return n, Done;
    }

    method ReadBlock(index: nat, offset: nat, p: array<Byte>) returns (n: nat, status: Status)
      requires Valid()
      modifies p, `open
      ensures Valid() && n <= p.Length
      ensures Got(p[..n], status)
              == ReadFrom(info, machine.denied, machine.files, p.Length, index * info.pieceLength + offset)
      ensures p[n..] == old(p[n..])
    {
      hide ReadFrom;
      n, status := ReadAt(p, info.PieceOffset(index, offset));
    }
  }
}
