/** Cutting a file's stretch of the flat range into pieces and blocks. */
module Tiling {
  import opened ByteStrings
  import opened MetaInfo
  import opened Numbers

  const BLOCK: nat := 16384

  /** A stretch of one piece; FilePiece and PieceBlock have the same three uint32 fields. */
  datatype Part = Part(index: nat, offset: nat, length: nat)

  /** FilePiece.TotalOffset. */
  function TotalOffset(p: Part, pieceLength: nat): nat
  {
    p.index * pieceLength + p.offset
  }

  // ---------- Tiling ----------

  /** The parts, in order, lie end to end from `lo` to `hi` in the flat range. */
  predicate Tiles(parts: seq<Part>, pieceLength: nat, lo: int, hi: int)
  {
    if parts == [] then lo == hi
    else TotalOffset(parts[0], pieceLength) == lo && Tiles(parts[1..], pieceLength, lo + parts[0].length, hi)
  }

  /** How many parts contain the flat position k. */
  function Covering(parts: seq<Part>, pieceLength: nat, k: int): nat
  {
    if parts == [] then 0
    else
      var at := TotalOffset(parts[0], pieceLength);
      (if at <= k < at + parts[0].length then 1 else 0) + Covering(parts[1..], pieceLength, k)
  }

  lemma {:induction false} TilesBounds(parts: seq<Part>, pieceLength: nat, lo: int, hi: int)
    requires Tiles(parts, pieceLength, lo, hi)
    ensures lo <= hi
  {
    if parts != [] { TilesBounds(parts[1..], pieceLength, lo + parts[0].length, hi); }
  }

  /** Tiling means: every position in between is covered exactly once, and nothing else is. */
  lemma {:induction false} TilesCoverOnce(parts: seq<Part>, pieceLength: nat, lo: int, hi: int, k: int)
    requires Tiles(parts, pieceLength, lo, hi)
    ensures Covering(parts, pieceLength, k) == if lo <= k < hi then 1 else 0
  {
    if parts != [] {
      var mid := lo + parts[0].length;
      TilesCoverOnce(parts[1..], pieceLength, mid, hi, k);
      TilesBounds(parts[1..], pieceLength, mid, hi);
    }
  }

  lemma {:induction false} TilesAppend(a: seq<Part>, b: seq<Part>, pieceLength: nat, lo: int, mid: int, hi: int)
    requires Tiles(a, pieceLength, lo, mid) && Tiles(b, pieceLength, mid, hi)
    ensures Tiles(a + b, pieceLength, lo, hi)
  {
    if a == [] {
      assert a + b == b;
    } else {
      TilesAppend(a[1..], b, pieceLength, lo + a[0].length, mid, hi);
      assert (a + b)[0] == a[0] && (a + b)[1..] == a[1..] + b;
    }
  }

  // ---------- Blocks of one stretch ----------

  /** The blocks from `offset` on; the uint32 offset wraps. */
  function BlocksFrom(index: nat, offset: nat, rest: nat): (bs: seq<Part>)
    ensures forall i :: 0 <= i < |bs| ==> bs[i].index == index && 0 < bs[i].length <= BLOCK
    decreases rest
  {
    if rest == 0 then []
    else
      var length := if rest < BLOCK then rest else BLOCK;
      [Part(index, offset, length)] + BlocksFrom(index, (offset + length) % U32, rest - length)
  }

  method Blocks(fp: Part) returns (bs: seq<Part>)
    ensures bs == BlocksFrom(fp.index, fp.offset, fp.length)
  {
    bs := [];
    var offset: nat, rest: nat := fp.offset, fp.length;
    while rest > 0
      invariant BlocksFrom(fp.index, fp.offset, fp.length) == bs + BlocksFrom(fp.index, offset, rest)
    {
      var length := BLOCK;
      if rest < length { length := rest; }
      bs := bs + [Part(fp.index, offset, length)];
      offset := (offset + length) % U32;
      rest := rest - length;
    }
  }

  /** The last block starts before the uint32 offset would wrap. */
  predicate NoWrap(offset: nat, length: nat)
  {
    length == 0 || offset + (length - 1) / BLOCK * BLOCK < U32
  }

  lemma NoWrapStep(offset: nat, rest: nat)
    requires rest >= BLOCK
    ensures NoWrap(offset, rest) && rest > BLOCK ==> offset + BLOCK < U32
    ensures rest > BLOCK && offset + BLOCK < U32 ==> (NoWrap(offset, rest) <==> NoWrap(offset + BLOCK, rest - BLOCK))
    ensures offset < U32 <= offset + BLOCK && rest > BLOCK ==> !NoWrap(offset, rest)
    ensures offset < U32 && rest == BLOCK ==> NoWrap(offset, rest)
  {
    assert (rest - BLOCK - 1) / BLOCK == (rest - 1) / BLOCK - 1 || rest == BLOCK;
    assert rest > BLOCK ==> (rest - 1) / BLOCK >= 1;
  }

  lemma {:induction false} BlocksStayInPiece(index: nat, offset: nat, rest: nat, i: nat)
    requires offset < U32 && NoWrap(offset, rest) && i < |BlocksFrom(index, offset, rest)|
    ensures var b := BlocksFrom(index, offset, rest)[i]; b.offset + b.length <= offset + rest
    decreases rest
  {
    hide NoWrap, BlocksFrom;
    BlocksCons(index, offset, rest);
    if i > 0 {
      NoWrapStep(offset, rest);
      assert BlocksFrom(index, offset, rest)[i] == BlocksFrom(index, offset, rest)[1..][i - 1];
      BlocksStayInPiece(index, offset + BLOCK, rest - BLOCK, i - 1);
    }
  }

  lemma NoWrapSmall(offset: nat, rest: nat)
    requires offset < U32 && rest <= BLOCK
    ensures NoWrap(offset, rest)
  {
    assert rest > 0 ==> (rest - 1) / BLOCK == 0;
  }

  lemma BlocksCons(index: nat, offset: nat, rest: nat)
    ensures var bs, length := BlocksFrom(index, offset, rest), if rest < BLOCK then rest else BLOCK;
            if rest == 0 then bs == []
            else
              && bs != [] && bs[0] == Part(index, offset, length)
              && bs[1..] == BlocksFrom(index, (offset + length) % U32, rest - length)
              && (rest == length ==> bs[1..] == [])
  {
  }

  /** Where offsets do not wrap, block i starts 16384 * i bytes into the stretch; all but the last have 16384 bytes. */
  lemma {:induction false} BlocksAre(index: nat, offset: nat, rest: nat, i: nat)
    requires offset < U32 && NoWrap(offset, rest)
    ensures i < |BlocksFrom(index, offset, rest)| <==> 16384 * i < rest
    ensures 16384 * i < rest ==>
              BlocksFrom(index, offset, rest)[i] == Part(index, offset + 16384 * i, Min(16384, rest - 16384 * i))
    decreases rest
  {
    hide NoWrap, BlocksFrom;
    BlocksCons(index, offset, rest);
    var bs := BlocksFrom(index, offset, rest);
    if rest > BLOCK {
      NoWrapStep(offset, rest);
      if i > 0 {
        BlocksAre(index, offset + BLOCK, rest - BLOCK, i - 1);
        assert i < |bs| ==> bs[i] == bs[1..][i - 1];
      }
    } else {
      assert rest > 0 ==> |bs| == 1;
    }
  }

  /** The blocks tile their stretch exactly when no block's offset wraps. */
  lemma {:induction false} BlocksTileExactly(index: nat, offset: nat, rest: nat, pieceLength: nat)
    requires offset < U32
    ensures var at := index * pieceLength + offset;
            Tiles(BlocksFrom(index, offset, rest), pieceLength, at, at + rest) <==> NoWrap(offset, rest)
    decreases rest
  {
    hide NoWrap, BlocksFrom;
    var at := index * pieceLength + offset;
    var bs := BlocksFrom(index, offset, rest);
    BlocksCons(index, offset, rest);
    if rest > BLOCK {
      NoWrapStep(offset, rest);
      var next := (offset + BLOCK) % U32;
      var tail := BlocksFrom(index, next, rest - BLOCK);
      assert bs[1..] == tail && bs[0].length == BLOCK;
      assert Tiles(bs, pieceLength, at, at + rest) <==> Tiles(tail, pieceLength, at + BLOCK, at + rest);
      if offset + BLOCK < U32 {
        BlocksTileExactly(index, next, rest - BLOCK, pieceLength);
      } else {
        BlocksCons(index, next, rest - BLOCK);
        assert TotalOffset(tail[0], pieceLength) == index * pieceLength + next;
      }
    } else {
      NoWrapSmall(offset, rest);
    }
  }

  // ---------- Where a file lies ----------

  /** The first file with the given path, or the number of files. */
  function FirstWithPath(files: seq<File>, path: string): (i: nat)
    ensures i <= |files|
    ensures i < |files| ==> files[i].path == path
    ensures forall j :: 0 <= j < i ==> files[j].path != path
  {
    if files == [] || files[0].path == path then 0 else 1 + FirstWithPath(files[1..], path)
  }

  /** File.Path: in a single-file torrent every file goes by the torrent's name. */
  function PathIn(f: File, info: Info): string
  {
    if info.IsDir() then f.path else info.name
  }

  /** File.Offset; None is the panic on a path that the torrent does not have. */
  method Offset(f: File, info: Info) returns (ret: Option<nat>)
    ensures var files := info.AllFiles(); var i := FirstWithPath(files, PathIn(f, info));
            ret == if i < |files| then Some(Start(files, i)) else None
    ensures !info.IsDir() ==> ret == Some(0)
  {
    var files, path := info.AllFiles(), PathIn(f, info);
    var sum := 0;
    for i := 0 to |files|
      invariant sum == Start(files, i)
      invariant i <= FirstWithPath(files, path)
    {
      if PathIn(files[i], info) == path { return Some(sum); }
      StartStep(files, i);
      sum := sum + files[i].length;
    }
    return None;
  }

  // ---------- The pieces of a file ----------

  function Middle(i: nat, end: nat, pieceLength: nat): seq<Part>
    decreases end - i
  {
    if i >= end then [] else [Part(i, 0, pieceLength)] + Middle(i + 1, end, pieceLength)
  }

  /** From position `from` of piece `first` to position `to` of piece `last`. */
  function PartsBetween(first: nat, from: nat, last: nat, to: nat, pieceLength: nat): seq<Part>
    requires from <= pieceLength && (first == last ==> from <= to)
  {
    if first == last then [Part(first, from, to - from)]
    else [Part(first, from, pieceLength - from)] + Middle(first + 1, last, pieceLength) + [Part(last, 0, to)]
  }

  // Division and remainder by the piece length, kept apart from other arithmetic.
  function Quo(x: nat, d: nat): nat requires d > 0 { x / d }
  function Rem(x: nat, d: nat): nat requires d > 0 { x % d }

  lemma QuoRem(x: nat, d: nat)
    requires d > 0
    ensures x == Quo(x, d) * d + Rem(x, d) && Rem(x, d) < d
  {
  }

  /** The pieces that a stretch of the flat range touches, before the uint32 conversions. */
  function PiecesOf(start: nat, length: nat, pieceLength: nat): seq<Part>
    requires pieceLength > 0
  {
    var end := start + length;
    InOrder(start, end, pieceLength);
    PartsBetween(Quo(start, pieceLength), Rem(start, pieceLength), Quo(end, pieceLength), Rem(end, pieceLength),
                 pieceLength)
  }

  lemma InOrder(start: nat, end: nat, pieceLength: nat)
    requires pieceLength > 0 && start <= end
    ensures Quo(start, pieceLength) <= Quo(end, pieceLength) && Rem(start, pieceLength) < pieceLength
    ensures Quo(start, pieceLength) == Quo(end, pieceLength) ==>
              Rem(end, pieceLength) - Rem(start, pieceLength) == end - start
  {
    hide Quo, Rem;
    QuoRem(start, pieceLength);
    QuoRem(end, pieceLength);
    TimesMonotone(Quo(end, pieceLength) + 1, Quo(start, pieceLength), pieceLength);
    assert (Quo(end, pieceLength) + 1) * pieceLength == Quo(end, pieceLength) * pieceLength + pieceLength;
  }

  function Cast(p: Part): Part { Part(p.index % U32, p.offset % U32, p.length % U32) }

  function CastAll(parts: seq<Part>): (r: seq<Part>)
    ensures |r| == |parts|
  {
    if parts == [] then [] else [Cast(parts[0])] + CastAll(parts[1..])
  }

  lemma {:induction false} CastAppend(a: seq<Part>, b: seq<Part>)
    ensures CastAll(a + b) == CastAll(a) + CastAll(b)
  {
    hide Cast;
    if a == [] {
      assert a + b == b;
    } else {
      CastAppend(a[1..], b);
      assert (a + b)[0] == a[0] && (a + b)[1..] == a[1..] + b;
      assert ([Cast(a[0])] + CastAll(a[1..])) + CastAll(b) == [Cast(a[0])] + (CastAll(a[1..]) + CastAll(b));
    }
  }

  /** File.FilePieces; None is the panic of File.Offset. */
  method FilePieces(f: File, info: Info) returns (fps: Option<seq<Part>>)
    requires info.pieceLength > 0
    ensures var files := info.AllFiles(); var i := FirstWithPath(files, PathIn(f, info));
            fps == if f.length < 1 then Some([])
                   else if i == |files| then None
                   else Some(CastAll(PiecesOf(Start(files, i), f.length, info.pieceLength)))
  {
    if f.length < 1 { return Some([]); }
    var start := Offset(f, info);
    if start.None? { return None; }
    var pieceLength, end := info.pieceLength, start.value + f.length;
    InOrder(start.value, end, pieceLength);
    var first, from := start.value / pieceLength, start.value % pieceLength;
    var last, to := end / pieceLength, end % pieceLength;
    var r := Cut(first, from, last, to, pieceLength);
    return Some(r);
  }

  /** The body of FilePieces once the two flat offsets are split into piece and position. */
  method Cut(first: nat, from: nat, last: nat, to: nat, pieceLength: nat) returns (fps: seq<Part>)
    requires from <= pieceLength && first <= last && (first == last ==> from <= to)
    ensures fps == CastAll(PartsBetween(first, from, last, to, pieceLength))
  {
    if first == last {
      assert CastAll([]) == [];
      return [Part(first % U32, from % U32, (to - from) % U32)];
    }
    fps := [Part(first % U32, from % U32, (pieceLength - from) % U32)];
    ghost var head, middle := [Part(first, from, pieceLength - from)], Middle(first + 1, last, pieceLength);
    CastAppend(head, middle);
    CastAppend(head + middle, [Part(last, 0, to)]);
    assert CastAll(head) == fps && CastAll([Part(last, 0, to)]) == [Cast(Part(last, 0, to))];
    var i := first + 1;
    while i < last
      invariant first + 1 <= i <= last
      invariant CastAll(head + middle) == fps + CastAll(Middle(i, last, pieceLength))
      decreases last - i
    {
      CastMiddle(i, last, pieceLength);
      fps := fps + [Part(i % U32, 0, pieceLength % U32)];
      i := i + 1;
    }
    assert CastAll(Middle(last, last, pieceLength)) == [];
    fps := fps + [Part(last % U32, 0, to % U32)];
  }

  lemma CastMiddle(i: nat, last: nat, pieceLength: nat)
    requires i < last
    ensures CastAll(Middle(i, last, pieceLength))
            == [Part(i % U32, 0, pieceLength % U32)] + CastAll(Middle(i + 1, last, pieceLength))
  {
    assert Middle(i, last, pieceLength)[1..] == Middle(i + 1, last, pieceLength);
  }

  // ---------- The pieces tile the file ----------

  lemma {:induction false} MiddleTiles(i: nat, last: nat, pieceLength: nat)
    requires i <= last
    ensures Tiles(Middle(i, last, pieceLength), pieceLength, i * pieceLength, last * pieceLength)
    decreases last - i
  {
    if i < last {
      MiddleTiles(i + 1, last, pieceLength);
      assert Middle(i, last, pieceLength)[1..] == Middle(i + 1, last, pieceLength);
      assert (i + 1) * pieceLength == i * pieceLength + pieceLength;
    }
  }

  lemma OneTiles(p: Part, pieceLength: nat)
    ensures var at := TotalOffset(p, pieceLength); Tiles([p], pieceLength, at, at + p.length)
  {
    assert [p][1..] == [];
  }

  lemma PartsTile(first: nat, from: nat, last: nat, to: nat, pieceLength: nat)
    requires from <= pieceLength && first <= last && (first == last ==> from <= to)
    ensures Tiles(PartsBetween(first, from, last, to, pieceLength), pieceLength,
                  first * pieceLength + from, last * pieceLength + to)
  {
    if first == last {
      OneTiles(Part(first, from, to - from), pieceLength);
    } else {
      var a, b, c := Part(first, from, pieceLength - from), Middle(first + 1, last, pieceLength), Part(last, 0, to);
      OneTiles(a, pieceLength);
      assert (first + 1) * pieceLength == first * pieceLength + pieceLength;
      MiddleTiles(first + 1, last, pieceLength);
      TilesAppend([a], b, pieceLength, first * pieceLength + from, (first + 1) * pieceLength, last * pieceLength);
      OneTiles(c, pieceLength);
      TilesAppend([a] + b, [c], pieceLength, first * pieceLength + from, last * pieceLength, last * pieceLength + to);
    }
  }

  /** The pieces of a stretch lie end to end over exactly that stretch. */
  lemma PiecesTile(start: nat, length: nat, pieceLength: nat)
    requires pieceLength > 0
    ensures Tiles(PiecesOf(start, length, pieceLength), pieceLength, start, start + length)
  {
    hide Tiles, PartsBetween, Quo, Rem;
    var end := start + length;
    InOrder(start, end, pieceLength);
    QuoRem(start, pieceLength);
    QuoRem(end, pieceLength);
    PartsTile(Quo(start, pieceLength), Rem(start, pieceLength), Quo(end, pieceLength), Rem(end, pieceLength), pieceLength);
  }

  predicate WithinPiece(p: Part, pieceLength: nat) { p.offset + p.length <= pieceLength }

  lemma {:induction false} MiddleWithin(i: nat, last: nat, pieceLength: nat)
    ensures forall k :: 0 <= k < |Middle(i, last, pieceLength)| ==> WithinPiece(Middle(i, last, pieceLength)[k], pieceLength)
    decreases last - i
  {
    if i < last { MiddleWithin(i + 1, last, pieceLength); }
  }

  lemma PiecesWithin(start: nat, length: nat, pieceLength: nat)
    requires pieceLength > 0
    ensures var ps := PiecesOf(start, length, pieceLength);
            forall k :: 0 <= k < |ps| ==> WithinPiece(ps[k], pieceLength)
  {
    hide Quo, Rem;
    InOrder(start, start + length, pieceLength);
    QuoRem(start + length, pieceLength);
    MiddleWithin(Quo(start, pieceLength) + 1, Quo(start + length, pieceLength), pieceLength);
  }

  // ---------- Exactly when the uint32 conversions do no harm ----------

  function SumParts(parts: seq<Part>): nat
  {
    if parts == [] then 0 else parts[0].length + SumParts(parts[1..])
  }

  lemma {:induction false} TilesSum(parts: seq<Part>, pieceLength: nat, lo: int, hi: int)
    requires Tiles(parts, pieceLength, lo, hi)
    ensures SumParts(parts) == hi - lo
  {
    if parts != [] { TilesSum(parts[1..], pieceLength, lo + parts[0].length, hi); }
  }

  lemma {:induction false} CastSum(parts: seq<Part>)
    ensures SumParts(CastAll(parts)) <= SumParts(parts)
  {
    if parts != [] {
      CastSum(parts[1..]);
      assert CastAll(parts)[1..] == CastAll(parts[1..]);
      assert parts[0].length % U32 <= parts[0].length;
    }
  }

  lemma CastMoves(p: Part, pieceLength: nat)
    requires pieceLength > 0
    ensures TotalOffset(Cast(p), pieceLength) == TotalOffset(p, pieceLength)
            <==> p.index % U32 == p.index && p.offset % U32 == p.offset
  {
    var q := Cast(p);
    assert q.index <= p.index && q.offset <= p.offset;
    TimesMonotone(q.index, p.index, pieceLength);
    TimesMonotone(q.index + 1, p.index, pieceLength);
    assert (q.index + 1) * pieceLength == q.index * pieceLength + pieceLength;
  }

  /** Converted to uint32, tiling parts still tile exactly when the conversion changed nothing. */
  lemma {:induction false} CastTilesExactly(parts: seq<Part>, pieceLength: nat, lo: int, hi: int)
    requires pieceLength > 0 && Tiles(parts, pieceLength, lo, hi)
    ensures Tiles(CastAll(parts), pieceLength, lo, hi) <==> CastAll(parts) == parts
  {
    hide TotalOffset;
    if parts != [] {
      var p, q, tail := parts[0], Cast(parts[0]), CastAll(parts[1..]);
      assert CastAll(parts)[0] == q && CastAll(parts)[1..] == tail;
      CastMoves(p, pieceLength);
      CastTilesExactly(parts[1..], pieceLength, lo + p.length, hi);
      assert parts == [p] + parts[1..];
      if q.length != p.length {
        if Tiles(tail, pieceLength, lo + q.length, hi) {
          TilesSum(tail, pieceLength, lo + q.length, hi);
          TilesSum(parts[1..], pieceLength, lo + p.length, hi);
          CastSum(parts[1..]);
        }
      }
    }
  }

  /** Every index, offset and length that FilePieces converts is below 2^32. */
  predicate FitsUint32(start: nat, length: nat, pieceLength: nat)
    requires pieceLength > 0
  {
    var first, from := Quo(start, pieceLength), Rem(start, pieceLength);
    var last, to := Quo(start + length, pieceLength), Rem(start + length, pieceLength);
    && last < U32 && from < U32
    && if first == last then length < U32
       else pieceLength - from < U32 && to < U32 && (first + 1 < last ==> pieceLength < U32)
  }

  lemma {:induction false} CastMiddleSame(i: nat, last: nat, pieceLength: nat)
    requires last < U32
    ensures CastAll(Middle(i, last, pieceLength)) == Middle(i, last, pieceLength) <==> i >= last || pieceLength < U32
    decreases last - i
  {
    if i < last {
      CastMiddle(i, last, pieceLength);
      CastMiddleSame(i + 1, last, pieceLength);
      assert Middle(i, last, pieceLength)[0].length == pieceLength;
      assert Middle(i, last, pieceLength)[1..] == Middle(i + 1, last, pieceLength);
    }
  }

  lemma CastSameAppend(a: seq<Part>, b: seq<Part>)
    ensures CastAll(a + b) == a + b <==> CastAll(a) == a && CastAll(b) == b
  {
    CastAppend(a, b);
    assert (a + b)[..|a|] == a && (a + b)[|a|..] == b;
    assert (CastAll(a) + CastAll(b))[..|a|] == CastAll(a) && (CastAll(a) + CastAll(b))[|a|..] == CastAll(b);
  }

  lemma CastSameOne(p: Part)
    ensures CastAll([p]) == [p] <==> p.index < U32 && p.offset < U32 && p.length < U32
  {
    assert [p][1..] == [];
    assert CastAll([p])[0] == Cast(p);
  }

  lemma CastPartsSame(first: nat, from: nat, last: nat, to: nat, pieceLength: nat)
    requires from <= pieceLength && first <= last && (first == last ==> from <= to)
    ensures var ps := PartsBetween(first, from, last, to, pieceLength);
            CastAll(ps) == ps <==>
              last < U32 &&
              if first == last then from < U32 && to - from < U32
              else from < U32 && pieceLength - from < U32 && to < U32 && (first + 1 < last ==> pieceLength < U32)
  {
    hide Cast, CastAll, Middle;
    if first == last {
      CastSameOne(Part(first, from, to - from));
    } else {
      var a, b, c := Part(first, from, pieceLength - from), Middle(first + 1, last, pieceLength), Part(last, 0, to);
      CastSameAppend([a] + b, [c]);
      CastSameAppend([a], b);
      CastSameOne(a);
      CastSameOne(c);
      if last < U32 { CastMiddleSame(first + 1, last, pieceLength); }
    }
  }

  /** What FilePieces returns tiles the file if and only if its numbers fit into uint32. */
  lemma FilePiecesTileExactly(start: nat, length: nat, pieceLength: nat)
    requires pieceLength > 0
    ensures Tiles(CastAll(PiecesOf(start, length, pieceLength)), pieceLength, start, start + length)
            <==> FitsUint32(start, length, pieceLength)
    ensures CastAll(PiecesOf(start, length, pieceLength)) == PiecesOf(start, length, pieceLength)
            <==> FitsUint32(start, length, pieceLength)
  {
    hide Tiles, PartsBetween, CastAll, Quo, Rem;
    var end := start + length;
    InOrder(start, end, pieceLength);
    PiecesTile(start, length, pieceLength);
    CastTilesExactly(PiecesOf(start, length, pieceLength), pieceLength, start, end);
    CastPartsSame(Quo(start, pieceLength), Rem(start, pieceLength), Quo(end, pieceLength), Rem(end, pieceLength),
                  pieceLength);
  }

  // ---------- The blocks of a file, and of all files ----------

  /** FilePieces followed by Blocks. */
  function BlocksOfAll(parts: seq<Part>): seq<Part>
  {
    if parts == [] then []
    else BlocksFrom(parts[0].index, parts[0].offset, parts[0].length) + BlocksOfAll(parts[1..])
  }

  predicate GoodBlock(b: Part, pieceLength: nat)
  {
    0 < b.length <= 16384 && WithinPiece(b, pieceLength)
  }

  /** A stretch that the conversion leaves alone and whose blocks do not wrap; an empty one has no blocks. */
  predicate PartFits(p: Part)
  {
    p.length == 0 || (p.index < U32 && p.offset < U32 && p.length < U32 && NoWrap(p.offset, p.length))
  }

  predicate AllFit(parts: seq<Part>)
  {
    forall k :: 0 <= k < |parts| ==> PartFits(parts[k])
  }

  lemma {:induction false} SumAppendParts(a: seq<Part>, b: seq<Part>)
    ensures SumParts(a + b) == SumParts(a) + SumParts(b)
  {
    if a == [] {
      assert a + b == b;
    } else {
      SumAppendParts(a[1..], b);
      assert (a + b)[0] == a[0] && (a + b)[1..] == a[1..] + b;
    }
  }

  lemma {:induction false} BlocksSum(index: nat, offset: nat, rest: nat)
    ensures SumParts(BlocksFrom(index, offset, rest)) == rest
    decreases rest
  {
    hide BlocksFrom;
    BlocksCons(index, offset, rest);
    var length := if rest < BLOCK then rest else BLOCK;
    if rest > 0 { BlocksSum(index, (offset + length) % U32, rest - length); }
  }

  /** Conversion never adds bytes. */
  lemma {:induction false} CastBlocksSum(parts: seq<Part>)
    ensures SumParts(BlocksOfAll(CastAll(parts))) <= SumParts(parts)
  {
    hide BlocksFrom;
    if parts != [] {
      var q := Cast(parts[0]);
      assert CastAll(parts)[0] == q && CastAll(parts)[1..] == CastAll(parts[1..]);
      BlocksSum(q.index, q.offset, q.length);
      SumAppendParts(BlocksFrom(q.index, q.offset, q.length), BlocksOfAll(CastAll(parts[1..])));
      CastBlocksSum(parts[1..]);
      assert q.length <= parts[0].length;
    }
  }

  lemma {:induction false} TilesSplit(a: seq<Part>, b: seq<Part>, pieceLength: nat, lo: int, hi: int)
    requires Tiles(a + b, pieceLength, lo, hi)
    ensures Tiles(a, pieceLength, lo, lo + SumParts(a)) && Tiles(b, pieceLength, lo + SumParts(a), hi)
  {
    if a == [] {
      assert a + b == b;
    } else {
      assert (a + b)[0] == a[0] && (a + b)[1..] == a[1..] + b;
      TilesSplit(a[1..], b, pieceLength, lo + a[0].length, hi);
    }
  }

  /** The blocks of one converted stretch tile it exactly if it fits, when the stretch is not empty. */
  lemma OnePartTilesExactly(p: Part, pieceLength: nat)
    requires pieceLength > 0 && p.length < U32
    ensures var q, at := Cast(p), TotalOffset(p, pieceLength);
            Tiles(BlocksFrom(q.index, q.offset, q.length), pieceLength, at, at + p.length) <==> PartFits(p)
  {
    hide BlocksFrom, NoWrap;
    var q := Cast(p);
    CastMoves(p, pieceLength);
    BlocksCons(q.index, q.offset, q.length);
    BlocksTileExactly(q.index, q.offset, q.length, pieceLength);
    ModIs(p.index);
    ModIs(p.offset);
  }

  lemma ModIs(x: nat)
    ensures x % U32 == x <==> x < U32
  {
  }

  /** Converted and cut into blocks, tiling stretches still tile if and only if each of them fits. */
  lemma {:induction false} BlocksOfAllTile(parts: seq<Part>, pieceLength: nat, lo: int, hi: int)
    requires pieceLength > 0 && Tiles(parts, pieceLength, lo, hi)
    ensures Tiles(BlocksOfAll(CastAll(parts)), pieceLength, lo, hi) <==> AllFit(parts)
  {
    hide BlocksFrom, TotalOffset, PartFits, Cast;
    if parts != [] {
      var p, rest := parts[0], parts[1..];
      var q := Cast(p);
      var head, tail := BlocksFrom(q.index, q.offset, q.length), BlocksOfAll(CastAll(rest));
      assert CastAll(parts)[0] == q && CastAll(parts)[1..] == CastAll(rest);
      assert AllFit(parts) <==> PartFits(p) && AllFit(rest) by { AllFitCons(parts); }
      BlocksOfAllTile(rest, pieceLength, lo + p.length, hi);
      BlocksSum(q.index, q.offset, q.length);
      CastLength(p);
      if AllFit(parts) {
        OnePartTilesExactly(p, pieceLength);
        TilesAppend(head, tail, pieceLength, lo, lo + p.length, hi);
      } else if Tiles(head + tail, pieceLength, lo, hi) {
        TilesSplit(head, tail, pieceLength, lo, hi);
        TilesSum(tail, pieceLength, lo + q.length, hi);
        TilesSum(rest, pieceLength, lo + p.length, hi);
        CastBlocksSum(rest);
        OnePartTilesExactly(p, pieceLength);
      }
    }
  }

  lemma AllFitCons(parts: seq<Part>)
    requires parts != []
    ensures AllFit(parts) <==> PartFits(parts[0]) && AllFit(parts[1..])
  {
    hide PartFits;
    assert forall k :: 0 < k < |parts| ==> parts[k] == parts[1..][k - 1];
  }

  lemma CastLength(p: Part)
    ensures Cast(p).length <= p.length && (PartFits(p) ==> Cast(p).length == p.length)
    ensures Cast(p).length == p.length ==> p.length < U32
  {
  }

  ghost predicate AllGood(bs: seq<Part>, pieceLength: nat)
  {
    forall k :: 0 <= k < |bs| ==> GoodBlock(bs[k], pieceLength)
  }

  lemma AllGoodAppend(a: seq<Part>, b: seq<Part>, pieceLength: nat)
    requires AllGood(a, pieceLength) && AllGood(b, pieceLength)
    ensures AllGood(a + b, pieceLength)
  {
    hide GoodBlock;
  }

  lemma OnePartGood(p: Part, pieceLength: nat)
    requires PartFits(p) && WithinPiece(p, pieceLength)
    ensures var q := Cast(p); AllGood(BlocksFrom(q.index, q.offset, q.length), pieceLength)
  {
    hide BlocksFrom, NoWrap;
    var q := Cast(p);
    var bs := BlocksFrom(q.index, q.offset, q.length);
    BlocksCons(q.index, q.offset, q.length);
    if p.length > 0 {
      forall k | 0 <= k < |bs| ensures GoodBlock(bs[k], pieceLength) {
        BlocksStayInPiece(p.index, p.offset, p.length, k);
      }
    }
  }

  /** Of stretches that fit and stay in their pieces, no block crosses a piece or exceeds 16 KiB. */
  lemma {:induction false} BlocksOfAllGood(parts: seq<Part>, pieceLength: nat)
    requires AllFit(parts) && forall k :: 0 <= k < |parts| ==> WithinPiece(parts[k], pieceLength)
    ensures AllGood(BlocksOfAll(CastAll(parts)), pieceLength)
  {
    hide BlocksFrom, PartFits, WithinPiece, AllGood, Cast;
    if parts == [] {
      assert AllGood([], pieceLength) by { NoneGood(pieceLength); }
    } else {
      var q := Cast(parts[0]);
      assert CastAll(parts)[0] == q && CastAll(parts)[1..] == CastAll(parts[1..]);
      OnePartGood(parts[0], pieceLength);
      BlocksOfAllGood(parts[1..], pieceLength);
      AllGoodAppend(BlocksFrom(q.index, q.offset, q.length), BlocksOfAll(CastAll(parts[1..])), pieceLength);
    }
  }

  lemma NoneGood(pieceLength: nat)
    ensures AllGood([], pieceLength)
  {
  }

  /** The blocks to request for file i, as the code computes them: its offset is found by path. */
  function FileBlocks(info: Info, i: nat): seq<Part>
    requires i < |info.AllFiles()| && info.pieceLength > 0
  {
    var files := info.AllFiles();
    if files[i].length < 1 then []
    else
      var first := FirstWithPath(files, PathIn(files[i], info));
      BlocksOfAll(CastAll(PiecesOf(Start(files, first), files[i].length, info.pieceLength)))
  }

  function BlocksFromFile(info: Info, i: nat): seq<Part>
    requires i <= |info.AllFiles()| && info.pieceLength > 0
    decreases |info.AllFiles()| - i
  {
    if i == |info.AllFiles()| then [] else FileBlocks(info, i) + BlocksFromFile(info, i + 1)
  }

  /** All stretches of file i can be requested by 32-bit numbers. */
  predicate FileFits(info: Info, i: nat)
    requires i < |info.AllFiles()| && info.pieceLength > 0
  {
    AllFit(PiecesOf(Start(info.AllFiles(), i), info.AllFiles()[i].length, info.pieceLength))
  }

  /** Where file i lies in the flat range. */
  ghost predicate TilesFile(info: Info, i: nat, blocks: seq<Part>)
    requires i < |info.AllFiles()| && info.pieceLength > 0
  {
    var files := info.AllFiles();
    Tiles(blocks, info.pieceLength, Start(files, i), Start(files, i) + files[i].length)
  }

  /**
    One file whose path no earlier file has: its blocks tile just its stretch of the torrent if
    and only if it fits, and then none crosses a piece or exceeds 16 KiB.
   */
  lemma FileBlocksTile(info: Info, i: nat)
    requires info.pieceLength > 0 && i < |info.AllFiles()|
    requires forall j :: 0 <= j < i ==> info.AllFiles()[j].path != info.AllFiles()[i].path
    ensures TilesFile(info, i, FileBlocks(info, i)) <==> FileFits(info, i)
    ensures FileFits(info, i) ==> AllGood(FileBlocks(info, i), info.pieceLength)
    ensures SumParts(FileBlocks(info, i)) <= info.AllFiles()[i].length
  {
    hide Tiles, PiecesOf, BlocksOfAll, CastAll, Start, AllFit;
    var files := info.AllFiles();
    var start, length := Start(files, i), files[i].length;
    if length > 0 {
      var parts := PiecesOf(start, length, info.pieceLength);
      assert FirstWithPath(files, PathIn(files[i], info)) == i;
      PiecesTile(start, length, info.pieceLength);
      TilesSum(parts, info.pieceLength, start, start + length);
      CastBlocksSum(parts);
      BlocksOfAllTile(parts, info.pieceLength, start, start + length);
      if AllFit(parts) {
        PiecesWithin(start, length, info.pieceLength);
        BlocksOfAllGood(parts, info.pieceLength);
      }
    } else {
      TilesNothing(info.pieceLength, start);
      EmptyFits(start, info.pieceLength);
    }
  }

  lemma EmptyFits(start: nat, pieceLength: nat)
    requires pieceLength > 0
    ensures AllFit(PiecesOf(start, 0, pieceLength))
  {
    hide Quo, Rem, NoWrap;
  }

  lemma TilesNothing(pieceLength: nat, at: int)
    ensures Tiles([], pieceLength, at, at)
  {
  }

  ghost predicate DistinctPaths(files: seq<File>)
  {
    forall i, j :: 0 <= i < j < |files| ==> files[i].path != files[j].path
  }

  ghost predicate AllFilesFit(info: Info, i: nat)
    requires info.pieceLength > 0
  {
    forall j :: i <= j < |info.AllFiles()| ==> FileFits(info, j)
  }

  lemma {:induction false} BlocksFromFileTile(info: Info, i: nat)
    requires info.pieceLength > 0 && DistinctPaths(info.AllFiles()) && i <= |info.AllFiles()|
    ensures Tiles(BlocksFromFile(info, i), info.pieceLength, Start(info.AllFiles(), i), Total(info)) <==> AllFilesFit(info, i)
    ensures AllFilesFit(info, i) ==> AllGood(BlocksFromFile(info, i), info.pieceLength)
    ensures SumParts(BlocksFromFile(info, i)) <= Total(info) - Start(info.AllFiles(), i)
    decreases |info.AllFiles()| - i
  {
    hide Tiles, FileBlocks, Start, FileFits, AllGood, SumParts;
    var files := info.AllFiles();
    if i == |files| {
      StartEnd(files);
      TilesNothing(info.pieceLength, Total(info));
      NoneGood(info.pieceLength);
      SumNothing();
    } else {
      var head, tail := FileBlocks(info, i), BlocksFromFile(info, i + 1);
      FileBlocksTile(info, i);
      BlocksFromFileTile(info, i + 1);
      StartStep(files, i);
      SumAppendParts(head, tail);
      if AllFilesFit(info, i) {
        AllGoodAppend(head, tail, info.pieceLength);
        TilesAppend(head, tail, info.pieceLength, Start(files, i), Start(files, i + 1), Total(info));
      } else if Tiles(head + tail, info.pieceLength, Start(files, i), Total(info)) {
        TilesSplit(head, tail, info.pieceLength, Start(files, i), Total(info));
        TilesSum(tail, info.pieceLength, Start(files, i) + SumParts(head), Total(info));
      }
    }
  }

  lemma SumNothing()
    ensures SumParts([]) == 0
  {
  }

  lemma StartEnd(files: seq<File>)
    ensures Start(files, |files|) == SumLengths(files) && Start(files, 0) == 0
  {
    assert files[..|files|] == files;
  }

  /**
    Over all files the blocks tile the whole torrent if and only if every file fits; then none
    crosses a piece and none exceeds 16 KiB.
   */
  lemma TorrentBlocksTile(info: Info)
    requires info.pieceLength > 0 && DistinctPaths(info.AllFiles())
    ensures Tiles(BlocksFromFile(info, 0), info.pieceLength, 0, Total(info)) <==> AllFilesFit(info, 0)
    ensures AllFilesFit(info, 0) ==> AllGood(BlocksFromFile(info, 0), info.pieceLength)
  {
    hide Tiles, BlocksFromFile, Start, FileFits, AllGood;
    StartEnd(info.AllFiles());
    BlocksFromFileTile(info, 0);
  }

  /** Pieces of 4 GiB less one byte, numbered in 32 bits, always fit. */
  lemma OrdinaryTorrentsFit(info: Info)
    requires 0 < info.pieceLength < U32 && Total(info) / info.pieceLength < U32
    ensures AllFilesFit(info, 0)
  {
    hide Start, PiecesOf, FitsUint32, PartFits;
    forall i | 0 <= i < |info.AllFiles()| ensures FileFits(info, i) {
      var files := info.AllFiles();
      StartStep(files, i);
      OrdinaryStretchFits(info, Start(files, i), files[i].length);
    }
  }

  lemma OrdinaryStretchFits(info: Info, start: nat, length: nat)
    requires 0 < info.pieceLength < U32 && Total(info) / info.pieceLength < U32 && start + length <= Total(info)
    ensures AllFit(PiecesOf(start, length, info.pieceLength))
  {
    hide PiecesOf, FitsUint32, NoWrap, Quo, Rem;
    var parts := PiecesOf(start, length, info.pieceLength);
    OrdinaryFits(info, start, length);
    FilePiecesTileExactly(start, length, info.pieceLength);
    PiecesWithin(start, length, info.pieceLength);
    forall k | 0 <= k < |parts| ensures PartFits(parts[k]) {
      CastAt(parts, k);
      NoWrapInside(parts[k].offset, parts[k].length);
    }
  }

  lemma {:induction false} CastAt(parts: seq<Part>, k: nat)
    requires k < |parts|
    ensures CastAll(parts)[k] == Cast(parts[k])
    ensures CastAll(parts) == parts ==> parts[k].index < U32
  {
    if k > 0 {
      assert CastAll(parts)[1..] == CastAll(parts[1..]);
      CastAt(parts[1..], k - 1);
    }
  }

  lemma OrdinaryFits(info: Info, start: nat, length: nat)
    requires 0 < info.pieceLength < U32 && Total(info) / info.pieceLength < U32 && start + length <= Total(info)
    ensures FitsUint32(start, length, info.pieceLength)
  {
    hide Quo, Rem;
    var end, total := start + length, Total(info);
    assert Quo(total, info.pieceLength) < U32 by { QuoIs(total, info.pieceLength); }
    InOrder(end, total, info.pieceLength);
    InOrder(start, end, info.pieceLength);
    QuoRem(end, info.pieceLength);
  }

  lemma QuoIs(x: nat, d: nat)
    requires d > 0
    ensures Quo(x, d) == x / d
  {
  }

  lemma NoWrapInside(offset: nat, length: nat)
    requires offset + length < U32
    ensures NoWrap(offset, length)
  {
    assert length > 0 ==> (length - 1) / BLOCK * BLOCK <= length - 1;
  }
}
