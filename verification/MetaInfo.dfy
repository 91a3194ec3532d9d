/** The info dictionary: its files laid end to end as one flat range of bytes. */
module MetaInfo {
  import opened ByteStrings

  /** A file of the torrent; `path` is its full joined path below the root directory. */
  datatype File = File(length: nat, path: string)

  /** `length` describes a single file; a nonempty `files` replaces it. */
  datatype Info = Info(name: string, pieceLength: int, length: nat, files: seq<File>)
  {
    predicate IsDir() { files != [] }

    function AllFiles(): seq<File>
    {
      if IsDir() then files else [File(length, name)]
    }

    function PieceOffset(index: nat, offset: nat): int
    {
      index * pieceLength + offset
    }
  }

  function SumLengths(files: seq<File>): (n: nat)
  {
    if files == [] then 0 else files[0].length + SumLengths(files[1..])
  }

  function Total(info: Info): nat
  {
    SumLengths(info.AllFiles())
  }

  /** Where file `i` starts in the flat range. */
  function Start(files: seq<File>, i: nat): nat
    requires i <= |files|
  {
    SumLengths(files[..i])
  }

  lemma SumOne(file: File)
    ensures SumLengths([file]) == file.length
  {
    assert [file][1..] == [];
  }

  lemma {:induction false} SumAppend(a: seq<File>, b: seq<File>)
    ensures SumLengths(a + b) == SumLengths(a) + SumLengths(b)
  {
    if a == [] {
      assert a + b == b;
    } else {
      assert (a + b)[0] == a[0] && (a + b)[1..] == a[1..] + b;
      SumAppend(a[1..], b);
    }
  }

  lemma StartStep(files: seq<File>, i: nat)
    requires i < |files|
    ensures Start(files, i + 1) == Start(files, i) + files[i].length <= SumLengths(files)
  {
    assert files[..i + 1] == files[..i] + [files[i]];
    SumAppend(files[..i], [files[i]]);
    SumOne(files[i]);
    assert files == files[..i + 1] + files[i + 1..];
    SumAppend(files[..i + 1], files[i + 1..]);
  }

  lemma {:induction false} StartMonotone(files: seq<File>, i: nat, j: nat)
    requires i <= j <= |files|
    ensures Start(files, i) <= Start(files, j) <= SumLengths(files)
    decreases j
  {
    if i == j {
      assert files == files[..i] + files[i..];
      SumAppend(files[..i], files[i..]);
    } else {
      StartMonotone(files, i, j - 1);
      StartStep(files, j - 1);
    }
  }

  method TotalLength(info: Info) returns (ret: nat)
    ensures ret == Total(info)
  {
    if !info.IsDir() {
      SumOne(info.AllFiles()[0]);
      return info.length;
    }
    ret := 0;
    for i := 0 to |info.files|
      invariant ret == Start(info.files, i)
    {
      StartStep(info.files, i);
      ret := ret + info.files[i].length;
    }
    assert info.files[..|info.files|] == info.files;
  }

  // ---------- Finding the file that holds an offset ----------

  /** A file, by its index among all files, and a position in it; or a Go panic. */
  datatype Located = At(index: nat, offset: int) | Panics

  /** The search through a directory's files; past the last one the offset is used as it then stands. */
  function LocateFrom(files: seq<File>, i: nat, offset: int): (r: Located)
    requires i < |files|
    ensures r.At? ==> i <= r.index < |files| && r.offset <= files[r.index].length
    decreases |files| - i
  {
    var length := files[i].length;
    if offset < length then At(i, offset)
    else if i + 1 < |files| then LocateFrom(files, i + 1, offset - length)
    else if offset == length then At(i, offset)
    else if offset - length > length then Panics
    else At(i, offset - length)
  }

  function Locate(info: Info, offset: int): (r: Located)
    ensures r.At? ==> r.index < |info.AllFiles()| && r.offset <= info.AllFiles()[r.index].length
  {
    if info.IsDir() then LocateFrom(info.files, 0, offset)
    else if offset > info.length then Panics
    else At(0, offset)
  }

  method GetFileByOffset(info: Info, offset: int) returns (r: Located)
    ensures r == Locate(info, offset)
  {
    if !info.IsDir() {
      return if offset > info.length then Panics else At(0, offset);
    }
    var fileOffset := offset;
    var i := 0;
    while i < |info.files|
      invariant 0 <= i <= |info.files|
      invariant i < |info.files| ==> LocateFrom(info.files, i, fileOffset) == Locate(info, offset)
      invariant i == |info.files| ==>
                  var length := info.files[i - 1].length;
                  Locate(info, offset) == if fileOffset > length then Panics else At(i - 1, fileOffset)
    {
      var length := info.files[i].length;
      if fileOffset < length || (fileOffset == length && i == |info.files| - 1) {
        return At(i, fileOffset);
      }
      fileOffset := fileOffset - length;
      i := i + 1;
    }
    return if fileOffset > info.files[i - 1].length then Panics else At(i - 1, fileOffset);
  }

  lemma {:induction false} LocateFromInRange(files: seq<File>, i: nat, offset: int)
    requires i < |files| && 0 <= offset <= SumLengths(files) - Start(files, i)
    ensures var r := LocateFrom(files, i, offset);
            && r.At? && 0 <= r.offset && Start(files, r.index) + r.offset == Start(files, i) + offset
            && (r.offset == files[r.index].length ==> offset == SumLengths(files) - Start(files, i))
    decreases |files| - i
  {
    StartStep(files, i);
    if offset >= files[i].length {
      if i + 1 < |files| {
        LocateFromInRange(files, i + 1, offset - files[i].length);
      } else {
        assert files[..i + 1] == files;
      }
    }
  }

  /** Inside the flat range the search names the one position that the flat offset denotes. */
  lemma LocateInRange(info: Info, offset: int)
    requires 0 <= offset <= Total(info)
    ensures var r, files := Locate(info, offset), info.AllFiles();
            && r.At? && 0 <= r.offset && Start(files, r.index) + r.offset == offset
            && (r.offset == files[r.index].length ==> offset == Total(info))
  {
    if info.IsDir() {
      LocateFromInRange(info.files, 0, offset);
    } else {
      SumOne(info.AllFiles()[0]);
    }
  }

  lemma {:induction false} LocateFromBeyond(files: seq<File>, i: nat, offset: int)
    requires i < |files| && offset > SumLengths(files) - Start(files, i)
    ensures var last, past := files[|files| - 1].length, offset - (SumLengths(files) - Start(files, i));
            LocateFrom(files, i, offset) == if past > last then Panics else At(|files| - 1, past)
    decreases |files| - i
  {
    StartStep(files, i);
    if i + 1 < |files| {
      LocateFromBeyond(files, i + 1, offset - files[i].length);
    } else {
      assert files[..i + 1] == files;
    }
  }

  /**
    Beyond the flat range a single file panics, but a directory wraps around inside its
    last file: the offset past the end is taken as a position in that file.
   */
  lemma LocateBeyond(info: Info, offset: int)
    requires offset > Total(info)
    ensures var files := info.AllFiles(); var last, past := files[|files| - 1].length, offset - Total(info);
            Locate(info, offset) == if !info.IsDir() || past > last then Panics else At(|files| - 1, past)
  {
    if info.IsDir() {
      LocateFromBeyond(info.files, 0, offset);
    } else {
      SumOne(info.AllFiles()[0]);
    }
  }
}
