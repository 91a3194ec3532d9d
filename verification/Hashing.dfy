/** Hashing a torrent's files piece by piece, whatever the file boundaries. */
module Hashing {
  import opened ByteStrings
  import opened MetaInfo
  import opened Numbers
  import Storage

  type Hash = Bytes

  /** What the reading end of the pipe sees: bytes, then end of file or the writer's error. */
  datatype Stream = Stream(data: Bytes, failed: bool)

  // ---------- Cutting a stream ----------

  function Chunks(s: Bytes, size: nat): (r: seq<Bytes>)
    requires size > 0
    decreases |s|
  {
    if s == [] then []
    else [s[..Min(size, |s|)]] + Chunks(s[Min(size, |s|)..], size)
  }

  function HashAll(chunks: seq<Bytes>, sha1: Bytes -> Hash): (hs: seq<Hash>)
    ensures |hs| == |chunks| && forall i :: 0 <= i < |hs| ==> hs[i] == sha1(chunks[i])
  {
    seq(|chunks|, i requires 0 <= i < |chunks| => sha1(chunks[i]))
  }

  method GeneratePieces(r: Stream, pieceLength: nat, sha1: Bytes -> Hash) returns (hs: Option<seq<Hash>>)
    requires pieceLength > 0
    ensures hs == if r.failed then None else Some(HashAll(Chunks(r.data, pieceLength), sha1))
  {
    hide HashAll;
    var rest, chunks := r.data, [];
    var done := false;
    while !done
      invariant done ==> rest == []
      invariant Chunks(r.data, pieceLength) == chunks + Chunks(rest, pieceLength)
      decreases !done, |rest|
    {
      var written := Min(pieceLength, |rest|);
      if written > 0 { chunks := chunks + [rest[..written]]; }
      rest := rest[written..];
      done := written < pieceLength;
    }
    if r.failed { return None; }
    assert chunks + [] == chunks;
    return Some(HashAll(chunks, sha1));
  }

  // ---------- Feeding the files into the stream ----------

  /** One file: opened, and copied up to its declared length. */
  function Feed(disk: Storage.Disk, file: File): Stream
  {
    if file.path !in disk then Stream([], true)
    else
      var c := disk[file.path];
      if |c| < file.length then Stream(c, true) else Stream(c[..file.length], false)
  }

  function FeedFrom(disk: Storage.Disk, files: seq<File>, i: nat): Stream
    requires i <= |files|
    decreases |files| - i
  {
    if i == |files| then Stream([], false)
    else
      var s := Feed(disk, files[i]);
      if s.failed then s
      else
        var rest := FeedFrom(disk, files, i + 1);
        Stream(s.data + rest.data, rest.failed)
  }

  method WriteFiles(disk: Storage.Disk, files: seq<File>) returns (s: Stream)
    ensures s == FeedFrom(disk, files, 0)
  {
    var data: Bytes := [];
    ghost var wanted := FeedFrom(disk, files, 0);
    assert [] + wanted.data == wanted.data;
    for i := 0 to |files|
      invariant var rest := FeedFrom(disk, files, i);
                wanted == Stream(data + rest.data, rest.failed)
    {
      var one := Feed(disk, files[i]);
      if one.failed { return Stream(data + one.data, true); }
      ConcatAssociative(data, one.data, FeedFrom(disk, files, i + 1).data);
      data := data + one.data;
    }
    assert data + [] == data;
    return Stream(data, false);
  }

  method GeneratePiecesFromFiles(disk: Storage.Disk, files: seq<File>, pieceLength: int, sha1: Bytes -> Hash)
    returns (hs: Option<seq<Hash>>)
    ensures hs == if pieceLength <= 0 || FeedFrom(disk, files, 0).failed then None
                  else Some(HashAll(Chunks(FeedFrom(disk, files, 0).data, pieceLength), sha1))
  {
    if pieceLength <= 0 { return None; }
    var s := WriteFiles(disk, files);
    hs := GeneratePieces(s, pieceLength, sha1);
  }

  // ---------- Hashing ignores file boundaries ----------

  /** Every file is there, in full. */
  ghost predicate Complete(info: Info, disk: Storage.Disk)
  {
    forall i :: 0 <= i < |info.AllFiles()| ==> CompleteFile(info.AllFiles()[i], disk)
  }

  predicate CompleteFile(file: File, disk: Storage.Disk)
  {
    file.path in disk && |disk[file.path]| >= file.length
  }

  lemma {:induction false} FeedIsFlatFrom(info: Info, disk: Storage.Disk, i: nat)
    requires i <= |info.AllFiles()|
    ensures var s := FeedFrom(disk, info.AllFiles(), i);
            && (s.failed <==> exists j :: i <= j < |info.AllFiles()| && !CompleteFile(info.AllFiles()[j], disk))
            && (!s.failed ==> s.data == Storage.FlatFrom(info, disk, i))
    decreases |info.AllFiles()| - i
  {
    var files := info.AllFiles();
    if i < |files| {
      FeedIsFlatFrom(info, disk, i + 1);
      if CompleteFile(files[i], disk) {
        var c := disk[files[i].path];
        assert Storage.View(c, files[i].length) == c[..files[i].length];
      }
    }
  }

  /** The pipe carries the flat array, and fails exactly if some file is missing or too short. */
  lemma FeedIsFlat(info: Info, disk: Storage.Disk)
    ensures var s := FeedFrom(disk, info.AllFiles(), 0);
            && (s.failed <==> !Complete(info, disk))
            && (!s.failed ==> s.data == Storage.Flat(info, disk))
  {
    FeedIsFlatFrom(info, disk, 0);
  }

  /** Piece.Length, given the number of pieces. */
  function PieceLength(info: Info, count: nat, index: nat): int
  {
    if index == count - 1 then Total(info) - index * info.pieceLength else info.pieceLength
  }

  function SumPieceLengths(info: Info, count: nat, n: nat): int
  {
    if n == 0 then 0 else SumPieceLengths(info, count, n - 1) + PieceLength(info, count, n - 1)
  }

  lemma {:induction false} ChunksCount(s: Bytes, size: nat)
    requires size > 0
    ensures |s| <= Times(|Chunks(s, size)|, size) < |s| + size
    decreases |s|
  {
    hide Times;
    var k := Min(size, |s|);
    TimesNext(|Chunks(s[k..], size)|, size);
    if s != [] { ChunksCount(s[k..], size); }
    if s != [] && k < size { assert Chunks(s[k..], size) == []; }
  }

  lemma ChunksStep(s: Bytes, size: nat, i: nat)
    requires size > 0 && i < |Chunks(s, size)|
    ensures s != [] && (i > 0 ==> |s| > size)
    ensures i == 0 ==> Chunks(s, size)[i] == s[..Min(size, |s|)]
    ensures i > 0 ==> i - 1 < |Chunks(s[size..], size)| && Chunks(s, size)[i] == Chunks(s[size..], size)[i - 1]
  {
    if |s| <= size { assert Chunks(s[Min(size, |s|)..], size) == []; }
  }

  lemma SliceOfDrop(s: Bytes, k: nat, from: nat, to: nat)
    requires from <= to && k + to <= |s|
    ensures s[k..][from..to] == s[k + from..k + to]
  {
  }

  lemma {:induction false} ChunkIs(s: Bytes, size: nat, i: nat)
    requires size > 0 && i < |Chunks(s, size)|
    ensures Times(i, size) < |s|
    ensures Chunks(s, size)[i] == s[Times(i, size)..Min(Times(i, size) + size, |s|)]
    decreases |s|
  {
    hide Times, Chunks;
    ChunksStep(s, size, i);
    TimesNext(if i == 0 then 0 else i - 1, size);
    if i > 0 {
      ChunkIs(s[size..], size, i - 1);
      var at := Times(i - 1, size);
      SliceOfDrop(s, size, at, Min(at + size, |s| - size));
    }
  }

  lemma CountIs(x: nat, size: nat, n: nat)
    requires size > 0 && Times(n, size) <= x < Times(n, size) + size
    ensures n == x / size
  {
    var q := x / size;
    assert Times(q, size) <= x < Times(q, size) + size;
    NoTwoCounts(x, size, n, q);
    NoTwoCounts(x, size, q, n);
  }

  lemma NoTwoCounts(x: nat, size: nat, a: nat, b: nat)
    requires Times(a, size) <= x < Times(a, size) + size && Times(b, size) <= x
    ensures b <= a
  {
    hide Times;
    TimesNext(a, size);
    TimesMonotone(a + 1, b, size);
  }

  /**
    The i-th hash is the hash of exactly the flat bytes that Piece(i) describes, wherever the
    files begin and end, and there are just enough pieces for the whole.
   */
  lemma PieceHashes(info: Info, disk: Storage.Disk, sha1: Bytes -> Hash, i: nat)
    requires info.pieceLength > 0 && Complete(info, disk)
    ensures var hs := HashAll(Chunks(FeedFrom(disk, info.AllFiles(), 0).data, info.pieceLength), sha1);
            var offset, length := i * info.pieceLength, PieceLength(info, |hs|, i);
            && |hs| == (Total(info) + info.pieceLength - 1) / info.pieceLength
            && (i < |hs| ==>
                  && 0 <= offset && 0 < length <= info.pieceLength
                  && offset + length <= Total(info) == |Storage.Flat(info, disk)|
                  && hs[i] == sha1(Storage.Flat(info, disk)[offset..offset + length]))
  {
    hide Storage.Flat, FeedFrom, Chunks, Times;
    FeedIsFlat(info, disk);
    Storage.FlatLength(info, disk);
    var flat, size := Storage.Flat(info, disk), info.pieceLength;
    ChunksCount(flat, size);
    var n := |Chunks(flat, size)|;
    CountIs(|flat| + size - 1, size, n);
    if i < n {
      ChunkIs(flat, size, i);
      TimesIs(i, size);
      TimesNext(i, size);
      TimesNext(n - 1, size);
      TimesMonotone(i + 1, n - 1, size);
    }
  }

  lemma {:induction false} SumIs(info: Info, count: nat, n: nat)
    requires n <= count
    ensures SumPieceLengths(info, count, n) == if n > 0 && n == count then Total(info) else n * info.pieceLength
  {
    if n > 0 {
      SumIs(info, count, n - 1);
      assert n * info.pieceLength == (n - 1) * info.pieceLength + info.pieceLength;
    }
  }

  /** The piece lengths add up to the torrent. */
  lemma PieceLengthsSum(info: Info, count: nat)
    requires info.pieceLength > 0 && count == (Total(info) + info.pieceLength - 1) / info.pieceLength
    ensures SumPieceLengths(info, count, count) == Total(info)
  {
    SumIs(info, count, count);
    if count == 0 {
      assert (Total(info) + info.pieceLength - 1) / info.pieceLength == 0;
      assert Total(info) + info.pieceLength - 1 < info.pieceLength;
    }
  }
}
