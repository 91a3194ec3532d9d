/** Downloading a torrent's metadata from one peer: pieces arrive in any order, maybe repeatedly. */
module Download {
  import opened ByteStrings
  import Bencode
  import opened BencodeCodec
  import opened Extension
  import opened Hashing
  import opened Numbers
  import W = Wire
  import P = PeerConnection

  // ---------- The message loop ----------

  /** What a peer's extended handshake offers: its id for ut_metadata (zero if none) and the size. */
  datatype Offer = Offer(id: nat, size: nat)

  /** How extended handshakes decode; other payloads do not. */
  type Offers = map<Bytes, Offer>

  /** The downloader's settings and the wanted hash. */
  datatype Job = Job(block: nat, infohash: Bytes)

  datatype Progress = Waiting | Collecting(size: nat, pieces: seq<Bytes>)

  /** The loop ends with a response, without one, or by an index out of range. */
  datatype Outcome = Emitted(info: Bytes) | Ended | Panicked

  datatype Next = Go(p: Progress) | Stop(o: Outcome)

  function PieceCount(size: nat, block: nat): nat
    requires block > 0
  {
    size / block + if size % block != 0 then 1 else 0
  }

  function Blank(n: nat): (r: seq<Bytes>)
    ensures |r| == n && forall i :: 0 <= i < n ==> r[i] == []
  {
    seq(n, _ => [])
  }

  function Join(pieces: seq<Bytes>): Bytes
  {
    if pieces == [] then [] else pieces[0] + Join(pieces[1..])
  }

  predicate Filled(pieces: seq<Bytes>)
  {
    forall i :: 0 <= i < |pieces| ==> |pieces[i]| > 0
  }

  /** The length that the loop demands of a piece. */
  predicate RightSize(size: nat, block: nat, count: nat, piece: int, length: nat)
    requires block > 0
  {
    length == if piece == count - 1 then size % block else block
  }

  function Store(job: Job, sha1: Bytes -> Bytes, size: nat, pieces: seq<Bytes>, um: UtMetadata): Next
    requires job.block > 0
  {
    if !RightSize(size, job.block, |pieces|, um.piece, |um.data|) then Stop(Ended)
    else if um.piece < 0 || um.piece >= |pieces| then Stop(Panicked)
    else
      var stored := pieces[um.piece := um.data];
      if !Filled(stored) then Go(Collecting(size, stored))
      else Stop(if sha1(Join(stored)) == job.infohash then Emitted(Join(stored)) else Ended)
  }

  /** What one message does. */
  function Take(job: Job, offers: Offers, sha1: Bytes -> Bytes, p: Progress, m: W.Message): Next
    requires job.block > 0
  {
    if m.keepalive || m.typ != W.EXTENDED then Go(p)
    else if m.extendedID == 0 then
      if p.Collecting? || m.extendedPayload !in offers || offers[m.extendedPayload].id == 0 then Stop(Ended)
      else
        var size := offers[m.extendedPayload].size;
        Go(Collecting(size, Blank(PieceCount(size, job.block))))
    else if m.extendedID != 1 then Go(p)
    else if p.Waiting? then Stop(Ended)
    else match DecodePayload(m.extendedPayload, ZERO)
      case Failure(_) => Stop(Ended)
      case Success(um) => if um.msgType != TYPE_DATA then Go(p) else Store(job, sha1, p.size, p.pieces, um)
  }

  /** The whole loop; it ends without a response when the peer sends nothing more. */
  function Run(job: Job, offers: Offers, sha1: Bytes -> Bytes, p: Progress, ms: seq<W.Message>): Outcome
    requires job.block > 0
    decreases |ms|
  {
    if ms == [] then Ended
    else match Take(job, offers, sha1, p, ms[0])
      case Stop(o) => o
      case Go(p') => Run(job, offers, sha1, p', ms[1..])
  }

  /** The messages that ReadMsg returns before it fails. */
  function Received(s: P.State, max: W.Uint32, input: Bytes): seq<W.Message>
    decreases |input|
  {
    match W.Unframe(input, max)
    case Failed(_) => []
    case Got(m, rest) => if P.Timely(s, m) then [m] + Received(P.Advance(s), max, rest) else []
  }

  method AllFilled(pieces: seq<Bytes>) returns (finish: bool)
    ensures finish == Filled(pieces)
  {
    finish := true;
    for i := 0 to |pieces|
      invariant finish && forall j :: 0 <= j < i ==> |pieces[j]| > 0
    {
      if |pieces[i]| == 0 { return false; }
    }
  }

  /** Stores one data message and looks whether the metadata is complete. */
  method StorePiece(job: Job, sha1: Bytes -> Bytes, size: nat, pieces: seq<Bytes>, um: UtMetadata) returns (next: Next)
    requires job.block > 0
    ensures next == Store(job, sha1, size, pieces, um)
  {
    hide Filled, Join;
    var count, length := |pieces|, |um.data|;
    if (um.piece != count - 1 && length != job.block) || (um.piece == count - 1 && length != size % job.block) {
      return Stop(Ended);
    }
    if um.piece < 0 || um.piece >= count { return Stop(Panicked); }
    var stored := pieces[um.piece := um.data];
    var finish := AllFilled(stored);
    if !finish { return Go(Collecting(size, stored)); }
    var info := Join(stored);
    return Stop(if sha1(info) == job.infohash then Emitted(info) else Ended);
  }

  method DownloadFrom(pc: P.PeerConn, job: Job, offers: Offers, sha1: Bytes -> Bytes) returns (o: Outcome)
    requires job.block > 0
    modifies pc, pc.r
    ensures o == Run(job, offers, sha1, Waiting, Received(old(pc.Is()), pc.maxLength, old(pc.r.input)))
  {
    hide Store, DecodePayload, W.Unframe, PieceCount, P.Timely, P.Advance;
    var p := Waiting;
    ghost var wanted := Run(job, offers, sha1, p, Received(pc.Is(), pc.maxLength, pc.r.input));
    while true
      invariant wanted == Run(job, offers, sha1, p, Received(pc.Is(), pc.maxLength, pc.r.input))
      decreases |pc.r.input|
    {
      ghost var s, input := pc.Is(), pc.r.input;
      var res := pc.ReadMsg();
      ReceivedStep(s, pc.maxLength, input);
      if res.None? { return Ended; }
      var m := res.value;
      if m.keepalive || m.typ != W.EXTENDED { continue; }
      if m.extendedID == 0 {
        if p.Collecting? || m.extendedPayload !in offers { return Ended; }
        var offer := offers[m.extendedPayload];
        if offer.id == 0 { return Ended; }
        p := Collecting(offer.size, Blank(PieceCount(offer.size, job.block)));
      } else if m.extendedID == 1 {
        if p.Waiting? { return Ended; }
        var um := DecodePayload(m.extendedPayload, ZERO);
        if um.Failure? { return Ended; }
        if um.value.msgType != TYPE_DATA { continue; }
        var next := StorePiece(job, sha1, p.size, p.pieces, um.value);
        if next.Stop? { return next.o; }
        p := next.p;
      }
    }
  }

  lemma ReceivedStep(s: P.State, max: W.Uint32, input: Bytes)
    ensures W.Unframe(input, max).Got? && P.Timely(s, W.Unframe(input, max).m) ==>
              Received(s, max, input)
              == [W.Unframe(input, max).m] + Received(P.Advance(s), max, W.Unframe(input, max).rest)
    ensures !(W.Unframe(input, max).Got? && P.Timely(s, W.Unframe(input, max).m)) ==> Received(s, max, input) == []
  {
    hide W.Unframe, P.Timely, P.Advance;
  }

  // ---------- What is emitted ----------

  /** The data messages among the messages, decoded. */
  function Datas(ms: seq<W.Message>): seq<UtMetadata>
  {
    if ms == [] then [] else DataOf(ms[0]) + Datas(ms[1..])
  }

  function DataOf(m: W.Message): seq<UtMetadata>
  {
    if m.keepalive || m.typ != W.EXTENDED || m.extendedID != 1 then []
    else match DecodePayload(m.extendedPayload, ZERO)
      case Failure(_) => []
      case Success(um) => if um.msgType == TYPE_DATA then [um] else []
  }

  /** The latest data for piece i, empty if there is none. */
  function Latest(us: seq<UtMetadata>, i: nat): Bytes
  {
    if us == [] then []
    else if us[|us| - 1].piece == i then us[|us| - 1].data
    else Latest(us[..|us| - 1], i)
  }

  lemma LatestAppend(us: seq<UtMetadata>, u: UtMetadata, i: nat)
    ensures Latest(us + [u], i) == if u.piece == i then u.data else Latest(us, i)
  {
    assert (us + [u])[..|us|] == us;
  }

  /** The pieces hold the latest data, of the right size or nothing. */
  ghost predicate Inv(block: nat, p: Progress, us: seq<UtMetadata>)
    requires block > 0
  {
    p.Collecting? ==>
      && |p.pieces| == PieceCount(p.size, block)
      && forall i :: 0 <= i < |p.pieces| ==> HoldsLatest(block, p.size, p.pieces, us, i)
  }

  ghost predicate HoldsLatest(block: nat, size: nat, pieces: seq<Bytes>, us: seq<UtMetadata>, i: nat)
    requires block > 0 && i < |pieces|
  {
    pieces[i] == Latest(us, i) && (pieces[i] == [] || RightSize(size, block, |pieces|, i, |pieces[i]|))
  }

  /** Storing a piece that passes the checks keeps the pieces in step with the messages. */
  lemma StoreKeeps(block: nat, size: nat, pieces: seq<Bytes>, us: seq<UtMetadata>, um: UtMetadata)
    requires block > 0 && Inv(block, Collecting(size, pieces), us)
    requires 0 <= um.piece < |pieces| && RightSize(size, block, |pieces|, um.piece, |um.data|)
    ensures Inv(block, Collecting(size, pieces[um.piece := um.data]), us + [um])
  {
    hide RightSize, PieceCount, Latest;
    var stored := pieces[um.piece := um.data];
    forall i | 0 <= i < |stored| ensures HoldsLatest(block, size, stored, us + [um], i) {
      LatestAppend(us, um, i);
      assert HoldsLatest(block, size, pieces, us, i);
    }
  }

  /** The pieces a response was made of. */
  ghost predicate MadeOf(job: Job, sha1: Bytes -> Bytes, size: nat, us: seq<UtMetadata>, info: Bytes)
    requires job.block > 0
  {
    exists pieces ::
      && Inv(job.block, Collecting(size, pieces), us) && Filled(pieces) && pieces != []
      && info == Join(pieces) && sha1(info) == job.infohash
  }

  /** The size that the messages settle: that of the first handshake, unless it is already known. */
  function Settled(offers: Offers, p: Progress, ms: seq<W.Message>): nat
    decreases |ms|
  {
    if p.Collecting? then p.size
    else if ms == [] then 0
    else if !ms[0].keepalive && ms[0].typ == W.EXTENDED && ms[0].extendedID == 0 && ms[0].extendedPayload in offers
      then offers[ms[0].extendedPayload].size
    else Settled(offers, p, ms[1..])
  }

  /** One message: the invariant goes on, or a response is made of the latest data. */
  lemma TakeKeeps(job: Job, offers: Offers, sha1: Bytes -> Bytes, p: Progress, m: W.Message, us: seq<UtMetadata>,
                  next: Next)
    requires job.block > 0 && Inv(job.block, p, us) && (p.Waiting? ==> us == [])
    requires next == Take(job, offers, sha1, p, m)
    ensures next.Go? ==> Inv(job.block, next.p, us + DataOf(m)) && (next.p.Waiting? ==> us + DataOf(m) == [])
    ensures next.Stop? && next.o.Emitted? ==> p.Collecting? && MadeOf(job, sha1, p.size, us + DataOf(m), next.o.info)
  {
    hide RightSize, PieceCount, DecodePayload, Latest, Join, HoldsLatest;
    assert us + [] == us;
    if m.keepalive || m.typ != W.EXTENDED || m.extendedID > 1 {
    } else if m.extendedID == 0 {
      if p.Waiting? && m.extendedPayload in offers { BlankHolds(job.block, offers[m.extendedPayload].size); }
    } else if p.Collecting? {
      var r := DecodePayload(m.extendedPayload, ZERO);
      if r.Success? && r.value.msgType == TYPE_DATA {
        var um := r.value;
        if RightSize(p.size, job.block, |p.pieces|, um.piece, |um.data|) && 0 <= um.piece < |p.pieces| {
          StoreKeeps(job.block, p.size, p.pieces, us, um);
          assert p.pieces[um.piece := um.data] != [];
        }
      }
    }
  }

  lemma BlankHolds(block: nat, size: nat)
    requires block > 0
    ensures Inv(block, Collecting(size, Blank(PieceCount(size, block))), [])
  {
    hide RightSize, PieceCount;
    var pieces := Blank(PieceCount(size, block));
    forall i | 0 <= i < |pieces| ensures HoldsLatest(block, size, pieces, [], i) {}
  }

  lemma {:induction false} RunKeeps(job: Job, offers: Offers, sha1: Bytes -> Bytes, p: Progress, ms: seq<W.Message>,
                                    us: seq<UtMetadata>) returns (n: nat)
    requires job.block > 0 && Inv(job.block, p, us) && (p.Waiting? ==> us == [])
    ensures n <= |ms|
    ensures Run(job, offers, sha1, p, ms).Emitted? ==>
              MadeOf(job, sha1, Settled(offers, p, ms), us + Datas(ms[..n]), Run(job, offers, sha1, p, ms).info)
    decreases |ms|
  {
    hide Inv, Take, MadeOf, DataOf;
    if ms == [] { return 0; }
    TakeKeeps(job, offers, sha1, p, ms[0], us, Take(job, offers, sha1, p, ms[0]));
    TakeSettles(job, offers, sha1, p, ms);
    match Take(job, offers, sha1, p, ms[0]) {
      case Stop(o) => {
        n := 1;
        DatasOne(ms);
      }
      case Go(p') => {
        var k := RunKeeps(job, offers, sha1, p', ms[1..], us + DataOf(ms[0]));
        n := k + 1;
        assert ms[..n][1..] == ms[1..][..k] && ms[..n][0] == ms[0];
        assert (us + DataOf(ms[0])) + Datas(ms[1..][..k]) == us + Datas(ms[..n]);
      }
    }
  }

  lemma DatasOne(ms: seq<W.Message>)
    requires ms != []
    ensures Datas(ms[..1]) == DataOf(ms[0])
  {
    hide DataOf;
    assert ms[..1][1..] == [];
  }

  lemma TakeSettles(job: Job, offers: Offers, sha1: Bytes -> Bytes, p: Progress, ms: seq<W.Message>)
    requires job.block > 0 && ms != []
    ensures Take(job, offers, sha1, p, ms[0]).Go? ==>
              Settled(offers, Take(job, offers, sha1, p, ms[0]).p, ms[1..]) == Settled(offers, p, ms)
    ensures p.Collecting? ==> Settled(offers, p, ms) == p.size
  {
    hide DecodePayload, PieceCount, RightSize, Filled, Join;
  }

  /** A full block for a piece that does not exist ends the loop by an index out of range. */
  lemma OutOfRangePanics(job: Job, offers: Offers, sha1: Bytes -> Bytes, size: nat, pieces: seq<Bytes>, m: W.Message)
    requires job.block > 0 && |DataOf(m)| == 1 && |DataOf(m)[0].data| == job.block
    requires DataOf(m)[0].piece < 0 || DataOf(m)[0].piece >= |pieces|
    requires DataOf(m)[0].piece != |pieces| - 1
    ensures Take(job, offers, sha1, Collecting(size, pieces), m) == Stop(Panicked)
  {
    hide DecodePayload, PieceCount;
  }

  /** What ends the loop without a response: a bad or second handshake, data before it, data of a wrong size. */
  lemma EndsEarly(job: Job, offers: Offers, sha1: Bytes -> Bytes, p: Progress, m: W.Message)
    requires job.block > 0 && !m.keepalive && m.typ == 20
    ensures m.extendedID == 0 && (p.Collecting? || m.extendedPayload !in offers || offers[m.extendedPayload].id == 0) ==>
              Take(job, offers, sha1, p, m) == Stop(Ended)
    ensures m.extendedID == 1 && (p.Waiting? || DecodePayload(m.extendedPayload, ZERO).Failure?) ==>
              Take(job, offers, sha1, p, m) == Stop(Ended)
    ensures p.Collecting? && |DataOf(m)| == 1 ==>
              var u, last := DataOf(m)[0], |p.pieces| - 1;
              (u.piece != last && |u.data| != job.block) || (u.piece == last && |u.data| != p.size % job.block) ==>
                Take(job, offers, sha1, p, m) == Stop(Ended)
  {
    hide DecodePayload, PieceCount;
  }

  // ---------- Its size ----------

  lemma {:induction false} JoinLength(pieces: seq<Bytes>, block: nat, last: nat)
    requires pieces != []
    requires forall i :: 0 <= i < |pieces| ==> |pieces[i]| == if i == |pieces| - 1 then last else block
    ensures |Join(pieces)| == Times(|pieces| - 1, block) + last
  {
    hide Times;
    TimesNext(0, block);
    assert |Join(pieces)| == |pieces[0]| + |Join(pieces[1..])|;
    if |pieces| == 1 {
      assert Join(pieces[1..]) == [];
    } else {
      JoinLength(pieces[1..], block, last);
      TimesNext(|pieces| - 2, block);
    }
  }

  lemma CountOfSize(size: nat, block: nat)
    requires block > 0 && size % block != 0
    ensures PieceCount(size, block) > 0 && Times(PieceCount(size, block) - 1, block) + size % block == size
  {
    assert size == size / block * block + size % block;
  }

  /** A response has the announced size, which is then no multiple of the block size. */
  lemma MadeOfSize(job: Job, sha1: Bytes -> Bytes, size: nat, us: seq<UtMetadata>, info: Bytes)
    requires job.block > 0 && MadeOf(job, sha1, size, us, info)
    ensures |info| == size && size % job.block != 0 && sha1(info) == job.infohash
    ensures info == Join(seq(PieceCount(size, job.block), i requires 0 <= i => Latest(us, i)))
  {
    hide PieceCount, Latest, Join, Times;
    var count := PieceCount(size, job.block);
    var pieces :| Inv(job.block, Collecting(size, pieces), us) && Filled(pieces) && pieces != []
                  && info == Join(pieces) && sha1(info) == job.infohash;
    assert HoldsLatest(job.block, size, pieces, us, count - 1);
    forall i | 0 <= i < |pieces|
      ensures |pieces[i]| == (if i == count - 1 then size % job.block else job.block) && pieces[i] == Latest(us, i)
    {
      assert HoldsLatest(job.block, size, pieces, us, i);
    }
    CountOfSize(size, job.block);
    JoinLength(pieces, job.block, size % job.block);
    assert pieces == seq(count, i requires 0 <= i => Latest(us, i));
  }

  /**
    For every sequence of messages, a response has exactly the announced number of bytes, hashes
    to the wanted infohash, and joins in order the latest data that came for each piece.
   */
  lemma EmittedIsSound(job: Job, offers: Offers, sha1: Bytes -> Bytes, ms: seq<W.Message>) returns (n: nat)
    requires job.block > 0 && Run(job, offers, sha1, Waiting, ms).Emitted?
    ensures n <= |ms|
    ensures var info, size := Run(job, offers, sha1, Waiting, ms).info, Settled(offers, Waiting, ms);
            && |info| == size && size % job.block != 0 && sha1(info) == job.infohash
            && info == Join(seq(PieceCount(size, job.block), i requires 0 <= i => Latest(Datas(ms[..n]), i)))
  {
    hide Run, Settled, MadeOf, Join, Latest, Datas, PieceCount;
    n := RunKeeps(job, offers, sha1, Waiting, ms, []);
    assert [] + Datas(ms[..n]) == Datas(ms[..n]);
    MadeOfSize(job, sha1, Settled(offers, Waiting, ms), Datas(ms[..n]), Run(job, offers, sha1, Waiting, ms).info);
  }

  // ---------- When it completes ----------

  lemma {:induction false} JoinChunks(s: Bytes, size: nat)
    requires size > 0
    ensures Join(Chunks(s, size)) == s
    decreases |s|
  {
    if s != [] {
      var k := Min(size, |s|);
      JoinChunks(s[k..], size);
      assert Chunks(s, size)[1..] == Chunks(s[k..], size);
      assert s == s[..k] + s[k..];
    }
  }

  lemma MultipleLeavesNothing(n: nat, size: nat)
    requires size > 0
    ensures Times(n, size) % size == 0
  {
    hide Times;
    var x := Times(n, size);
    CountIs(x, size, n);
    TimesIs(n, size);
    assert x == x / size * size + x % size;
  }

  /** Cutting the metadata gives as many pieces as the loop expects, each of the expected size. */
  lemma ChunksFit(info: Bytes, block: nat, i: nat)
    requires block > 0 && |info| % block != 0
    ensures |Chunks(info, block)| == PieceCount(|info|, block) > 0
    ensures i < |Chunks(info, block)| ==>
              var n := |Chunks(info, block)[i]|;
              n > 0 && RightSize(|info|, block, |Chunks(info, block)|, i, n)
  {
    hide Times, Chunks;
    var n := |Chunks(info, block)|;
    ChunksCount(info, block);
    TimesNext(if n == 0 then 0 else n - 1, block);
    MultipleLeavesNothing(n, block);
    assert n > 0;
    CountIs(|info|, block, n - 1);
    CountOfSize(|info|, block);
    if i < n {
      ChunkIs(info, block, i);
      TimesNext(i, block);
      TimesMonotone(i + 1, n - 1, block);
    }
  }

  /** A message that the loop passes over, whether or not the handshake has come. */
  predicate Idle(m: W.Message)
  {
    m.keepalive || m.typ != W.EXTENDED || m.extendedID > 1
  }

  /** Data with the right bytes. */
  predicate Right(chunks: seq<Bytes>, u: UtMetadata)
  {
    u.msgType == TYPE_DATA && 0 <= u.piece < |chunks| && u.data == chunks[u.piece]
  }

  /** Passed over, or a ut_metadata message that holds no data or the right data. */
  predicate Honest(chunks: seq<Bytes>, m: W.Message)
  {
    Idle(m) || (m.extendedID == 1 && HonestPayload(chunks, DecodePayload(m.extendedPayload, ZERO)))
  }

  predicate HonestPayload(chunks: seq<Bytes>, r: Result<UtMetadata>)
  {
    r.Success? && (r.value.msgType == TYPE_DATA ==> Right(chunks, r.value))
  }

  ghost predicate Partial(pieces: seq<Bytes>, chunks: seq<Bytes>)
  {
    |pieces| == |chunks| && forall i :: 0 <= i < |pieces| ==> pieces[i] == [] || pieces[i] == chunks[i]
  }

  ghost predicate Covers(us: seq<UtMetadata>, i: nat)
  {
    exists j :: 0 <= j < |us| && us[j].piece == i
  }

  ghost predicate CoversAll(us: seq<UtMetadata>, n: nat)
  {
    forall i :: 0 <= i < n ==> Covers(us, i)
  }

  lemma CoversCons(us: seq<UtMetadata>, vs: seq<UtMetadata>, i: nat)
    requires |us| <= 1 && Covers(us + vs, i)
    ensures Covers(vs, i) || (us != [] && us[0].piece == i)
  {
    var j :| 0 <= j < |us + vs| && (us + vs)[j].piece == i;
    if j >= |us| { assert vs[j - |us|].piece == i; }
  }

  /** What an honest message does: nothing, or it stores right data. */
  lemma TakeHonest(job: Job, offers: Offers, sha1: Bytes -> Bytes, size: nat, pieces: seq<Bytes>, chunks: seq<Bytes>,
                   m: W.Message)
    requires job.block > 0 && Honest(chunks, m)
    ensures DataOf(m) == [] ==> Take(job, offers, sha1, Collecting(size, pieces), m) == Go(Collecting(size, pieces))
    ensures DataOf(m) != [] ==>
              && |DataOf(m)| == 1 && Right(chunks, DataOf(m)[0])
              && Take(job, offers, sha1, Collecting(size, pieces), m) == Store(job, sha1, size, pieces, DataOf(m)[0])
  {
    hide Store, DecodePayload, PieceCount, Right;
  }

  /** Right data: the metadata is complete, or it stays partial. */
  lemma StoreRight(job: Job, sha1: Bytes -> Bytes, info: Bytes, pieces: seq<Bytes>, u: UtMetadata)
    requires job.block > 0 && |info| % job.block != 0 && sha1(info) == job.infohash
    requires Partial(pieces, Chunks(info, job.block)) && Right(Chunks(info, job.block), u)
    ensures var stored := pieces[u.piece := u.data];
            && Partial(stored, Chunks(info, job.block)) && |u.data| > 0
            && Store(job, sha1, |info|, pieces, u)
               == if Filled(stored) then Stop(Emitted(info)) else Go(Collecting(|info|, stored))
  {
    hide Chunks, RightSize, Join, PieceCount;
    var chunks := Chunks(info, job.block);
    var stored := pieces[u.piece := u.data];
    ChunksFit(info, job.block, u.piece);
    JoinChunks(info, job.block);
    if Filled(stored) { assert stored == chunks; }
  }

  lemma {:induction false} Completes(job: Job, offers: Offers, sha1: Bytes -> Bytes, info: Bytes, pieces: seq<Bytes>,
                                     ms: seq<W.Message>)
    requires job.block > 0 && |info| % job.block != 0 && sha1(info) == job.infohash
    requires Partial(pieces, Chunks(info, job.block)) && !Filled(pieces)
    requires forall j :: 0 <= j < |ms| ==> Honest(Chunks(info, job.block), ms[j])
    requires forall i :: 0 <= i < |pieces| && pieces[i] == [] ==> Covers(Datas(ms), i)
    ensures Run(job, offers, sha1, Collecting(|info|, pieces), ms) == Emitted(info)
    decreases |ms|
  {
    hide Take, Store, Chunks, DataOf, Honest, Right;
    var hole :| 0 <= hole < |pieces| && |pieces[hole]| == 0;
    assert pieces[hole] == [] && Covers(Datas(ms), hole);
    var chunks, us := Chunks(info, job.block), DataOf(ms[0]);
    assert Honest(chunks, ms[0]);
    TakeHonest(job, offers, sha1, |info|, pieces, chunks, ms[0]);
    var next := pieces;
    if us != [] {
      StoreRight(job, sha1, info, pieces, us[0]);
      assert 0 <= us[0].piece < |pieces| by { RightIsInRange(chunks, us[0]); }
      next := pieces[us[0].piece := us[0].data];
    }
    if !Filled(next) {
      forall i | 0 <= i < |next| && next[i] == [] ensures Covers(Datas(ms[1..]), i) {
        assert Covers(us + Datas(ms[1..]), i);
        CoversCons(us, Datas(ms[1..]), i);
      }
      Completes(job, offers, sha1, info, next, ms[1..]);
    }
  }

  lemma RightIsInRange(chunks: seq<Bytes>, u: UtMetadata)
    requires Right(chunks, u)
    ensures 0 <= u.piece < |chunks|
  {
  }

  lemma {:induction false} IdlePass(job: Job, offers: Offers, sha1: Bytes -> Bytes, ms: seq<W.Message>, k: nat)
    requires job.block > 0 && k <= |ms| && forall j :: 0 <= j < k ==> Idle(ms[j])
    ensures Run(job, offers, sha1, Waiting, ms) == Run(job, offers, sha1, Waiting, ms[k..])
    decreases k
  {
    hide Take, Idle;
    if k == 0 {
      assert ms[0..] == ms;
    } else {
      assert Take(job, offers, sha1, Waiting, ms[0]) == Go(Waiting) by { IdleTake(job, offers, sha1, ms[0]); }
      IdlePass(job, offers, sha1, ms[1..], k - 1);
      assert ms[1..][k - 1..] == ms[k..];
    }
  }

  lemma IdleTake(job: Job, offers: Offers, sha1: Bytes -> Bytes, m: W.Message)
    requires job.block > 0 && Idle(m)
    ensures Take(job, offers, sha1, Waiting, m) == Go(Waiting)
  {
  }

  /** An extended handshake that offers metadata of the given size. */
  predicate Offering(offers: Offers, m: W.Message, size: nat)
  {
    && !m.keepalive && m.typ == W.EXTENDED && m.extendedID == 0 && m.extendedPayload in offers
    && offers[m.extendedPayload].id > 0 && offers[m.extendedPayload].size == size
  }

  lemma TakeOffer(job: Job, offers: Offers, sha1: Bytes -> Bytes, m: W.Message, size: nat)
    requires job.block > 0 && Offering(offers, m, size)
    ensures Take(job, offers, sha1, Waiting, m) == Go(Collecting(size, Blank(PieceCount(size, job.block))))
  {
    hide PieceCount;
  }

  /**
    A peer that sends anything idle, then a handshake offering the size, and then honest messages
    in every order and with every repetition completes the download once each piece has come.
   */
  lemma HonestPeerCompletes(job: Job, offers: Offers, sha1: Bytes -> Bytes, info: Bytes, ms: seq<W.Message>, k: nat)
    requires job.block > 0 && |info| % job.block != 0 && sha1(info) == job.infohash
    requires k < |ms| && Offering(offers, ms[k], |info|) && forall j :: 0 <= j < k ==> Idle(ms[j])
    requires forall j :: k < j < |ms| ==> Honest(Chunks(info, job.block), ms[j])
    requires CoversAll(Datas(ms[k + 1..]), PieceCount(|info|, job.block))
    ensures Run(job, offers, sha1, Waiting, ms) == Emitted(info)
  {
    hide Chunks, PieceCount, Honest, Covers, Take, Offering, Idle, Datas;
    IdlePass(job, offers, sha1, ms, k);
    TakeOffer(job, offers, sha1, ms[k], |info|);
    assert ms[k..][0] == ms[k] && ms[k..][1..] == ms[k + 1..];
    BlankCompletes(job, offers, sha1, info, ms[k + 1..]);
  }

  lemma BlankCompletes(job: Job, offers: Offers, sha1: Bytes -> Bytes, info: Bytes, ms: seq<W.Message>)
    requires job.block > 0 && |info| % job.block != 0 && sha1(info) == job.infohash
    requires forall j :: 0 <= j < |ms| ==> Honest(Chunks(info, job.block), ms[j])
    requires CoversAll(Datas(ms), PieceCount(|info|, job.block))
    ensures Run(job, offers, sha1, Collecting(|info|, Blank(PieceCount(|info|, job.block))), ms) == Emitted(info)
  {
    hide Run, Chunks, PieceCount, Honest, Covers, Datas;
    ChunksFit(info, job.block, 0);
    var blank := Blank(PieceCount(|info|, job.block));
    assert |blank[0]| == 0;
    Completes(job, offers, sha1, info, blank, ms);
  }

  /** The message that carries u. */
  ghost function DataMessage(u: UtMetadata): W.Message
  {
    W.FRESH.(typ := W.EXTENDED, extendedID := 1, extendedPayload := EncodePayload(u))
  }

  ghost function DataMessages(us: seq<UtMetadata>): (ms: seq<W.Message>)
    ensures |ms| == |us|
  {
    seq(|us|, i requires 0 <= i < |us| => DataMessage(us[i]))
  }

  /** Encoded right data is honest. */
  lemma DataMessageIsHonest(chunks: seq<Bytes>, u: UtMetadata)
    requires Typed(u) && Right(chunks, u)
    ensures Honest(chunks, DataMessage(u)) && DataOf(DataMessage(u)) == [u]
  {
    hide DecodePayload, EncodePayload, Typed;
    PayloadRoundTrip(u);
  }

  lemma {:induction false} DatasOfMessages(chunks: seq<Bytes>, us: seq<UtMetadata>)
    requires forall j :: 0 <= j < |us| ==> Typed(us[j]) && Right(chunks, us[j])
    ensures Datas(DataMessages(us)) == us
  {
    hide DataOf, DataMessage, Typed, Right;
    if us != [] {
      DataMessageIsHonest(chunks, us[0]);
      assert DataMessages(us)[0] == DataMessage(us[0]) && DataMessages(us)[1..] == DataMessages(us[1..]);
      DatasOfMessages(chunks, us[1..]);
    }
  }

  /** The messages in order, once each. */
  ghost function InOrder(info: Bytes, block: nat): (us: seq<UtMetadata>)
    requires block > 0
  {
    seq(|Chunks(info, block)|, i requires 0 <= i < |Chunks(info, block)| =>
        UtMetadata(TYPE_DATA, i, |info|, Chunks(info, block)[i]))
  }

  lemma InOrderIsRight(info: Bytes, block: nat)
    requires block > 0 && |info| < Bencode.HALF64
    ensures forall j :: 0 <= j < |InOrder(info, block)| ==>
              Typed(InOrder(info, block)[j]) && Right(Chunks(info, block), InOrder(info, block)[j])
    ensures forall i :: 0 <= i < |Chunks(info, block)| ==> Covers(InOrder(info, block), i)
  {
    hide Chunks;
    var us := InOrder(info, block);
    forall j | 0 <= j < |us| ensures Typed(us[j]) && Right(Chunks(info, block), us[j]) {
      ChunkIs(info, block, j);
      AtLeast(j, block);
    }
    forall i | 0 <= i < |Chunks(info, block)| ensures Covers(us, i) {
      assert us[i].piece == i;
    }
  }

  lemma AtLeast(a: nat, b: nat)
    requires b > 0
    ensures a <= Times(a, b)
  {
  }

  /**
    Whether any sequence of messages can complete the download of `info` depends only on its
    size: it can if and only if the block size does not divide it.
   */
  lemma CompletesExactly(job: Job, offers: Offers, sha1: Bytes -> Bytes, info: Bytes)
    requires job.block > 0 && sha1(info) == job.infohash && |info| < Bencode.HALF64
    ensures (exists ms ::
               Run(job, offers, sha1, Collecting(|info|, Blank(PieceCount(|info|, job.block))), ms).Emitted?)
            <==> |info| % job.block != 0
  {
    hide Run, PieceCount, Inv, MadeOf, Datas, Settled, Chunks, Honest, Covers, Right, Typed, InOrder, DataMessage;
    var size, count := |info|, PieceCount(|info|, job.block);
    var p := Collecting(size, Blank(count));
    BlankHolds(job.block, size);
    forall ms: seq<W.Message> | Run(job, offers, sha1, p, ms).Emitted? ensures size % job.block != 0 {
      var n := RunKeeps(job, offers, sha1, p, ms, []);
      KnownSettles(offers, p, ms);
      MadeOfSize(job, sha1, size, [] + Datas(ms[..n]), Run(job, offers, sha1, p, ms).info);
    }
    if size % job.block != 0 {
      var us, chunks := InOrder(info, job.block), Chunks(info, job.block);
      InOrderIsRight(info, job.block);
      ChunksFit(info, job.block, 0);
      DatasOfMessages(chunks, us);
      forall j | 0 <= j < |us| ensures Honest(chunks, DataMessages(us)[j]) {
        DataMessageIsHonest(chunks, us[j]);
      }
      BlankCompletes(job, offers, sha1, info, DataMessages(us));
    }
  }

  lemma KnownSettles(offers: Offers, p: Progress, ms: seq<W.Message>)
    requires p.Collecting?
    ensures Settled(offers, p, ms) == p.size
  {
  }
}
