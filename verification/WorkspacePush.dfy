/** Pushing a workspace in chunks: the client's split and the core's reassembly. */
module WorkspacePush {
  import opened Basics

  type Bytes = seq<bv8>

  const CHUNK_BYTES: nat := 524288
  const MAX_WORKSPACE_BYTES: nat := 268435456
  const U32_MAX: nat := 0xFFFF_FFFF

  datatype Chunk = Chunk(transfer: u64, index: nat, total: nat, body: Bytes, key: Bytes)

  datatype Pending = Pending(total: nat, chunks: map<nat, Bytes>, bytes: nat, key: Bytes)

  datatype PushError = NoChunks | OutOfRange | CountChanged | TooLarge | EmptyDocument | TooManyChunks

  type Transfers = map<u64, Pending>

  datatype Document = Document(body: Bytes, key: Bytes)

  type Reply = Result<Option<Document>, PushError>

  // ---------------------------------------------------------------------------
  // one arrival
  // ---------------------------------------------------------------------------

  /** The chunk bodies below index `k`, end to end. */
  function JoinTo(chunks: map<nat, Bytes>, k: nat): Bytes {
    if k == 0 then [] else JoinTo(chunks, k - 1) + if k - 1 in chunks then chunks[k - 1] else []
  }

  function Opened(ts: Transfers, c: Chunk): Pending {
    if c.transfer in ts then ts[c.transfer] else Pending(c.total, map[], 0, c.key)
  }

  function Filled(p: Pending, c: Chunk): Pending {
    p.(bytes := p.bytes + |c.body|, chunks := p.chunks[c.index := c.body])
  }

  /** The reply to an arriving chunk and the transfers it leaves. */
  function Arrive(ts: Transfers, c: Chunk): (Reply, Transfers) {
    if c.total == 0 then (Err(NoChunks), ts)
    else if c.index >= c.total then (Err(OutOfRange), ts)
    else if Opened(ts, c).total != c.total then (Err(CountChanged), ts - {c.transfer})
    else
      var p := Filled(Opened(ts, c), c);
      if p.bytes > MAX_WORKSPACE_BYTES then (Err(TooLarge), ts - {c.transfer})
      else if |p.chunks| != p.total then (Ok(None), ts[c.transfer := p])
      else (Ok(Some(Document(JoinTo(p.chunks, p.total), p.key))), ts - {c.transfer})
  }

  class WorkspaceAssembler {
    var transfers: Transfers

    constructor ()
      ensures transfers == map[]
    {
      transfers := map[];
    }

    /** Takes in a chunk; the whole document comes back with the last missing
        one. */
    method Accept(chunk: Chunk) returns (r: Reply)
      modifies this
      ensures (r, transfers) == Arrive(old(transfers), chunk)
    {
      if chunk.total == 0 {
        return Err(NoChunks);
      }
      if chunk.index >= chunk.total {
        return Err(OutOfRange);
      }
      var pending := if chunk.transfer in transfers then transfers[chunk.transfer] else Pending(chunk.total, map[], 0, chunk.key);
      if pending.total != chunk.total {
        transfers := transfers - {chunk.transfer};
        return Err(CountChanged);
      }
      pending := pending.(bytes := pending.bytes + |chunk.body|);
      if pending.bytes > MAX_WORKSPACE_BYTES {
        transfers := transfers - {chunk.transfer};
        return Err(TooLarge);
      }
      pending := pending.(chunks := pending.chunks[chunk.index := chunk.body]);
      if |pending.chunks| != pending.total {
        transfers := transfers[chunk.transfer := pending];
        return Ok(None);
      }
      transfers := transfers - {chunk.transfer};
      var document := Flatten(pending);
      return Ok(Some(Document(document, pending.key)));
    }
  }

  /** The chunk bodies in index order. */
  method Flatten(p: Pending) returns (document: Bytes)
    ensures document == JoinTo(p.chunks, p.total)
  {
    document := [];
    for i := 0 to p.total
      invariant document == JoinTo(p.chunks, i)
    {
      if i in p.chunks {
        document := document + p.chunks[i];
      }
    }
  }

  /** No arrival touches another transfer. */
  lemma ArrivalsAreIsolated(ts: Transfers, c: Chunk, t: u64)
    requires t != c.transfer
    ensures t in Arrive(ts, c).1 <==> t in ts
    ensures t in ts ==> Arrive(ts, c).1[t] == ts[t]
  {
  }

  // ---------------------------------------------------------------------------
  // splitting a document
  // ---------------------------------------------------------------------------

  function Least(a: nat, b: nat): nat {
    if a < b then a else b
  }

  function CountOf(document: Bytes): nat {
    (|document| + CHUNK_BYTES - 1) / CHUNK_BYTES
  }

  /** Where chunk `i` begins. */
  function Cut(document: Bytes, i: nat): (at: nat)
    ensures at <= |document|
  {
    Least(i * CHUNK_BYTES, |document|)
  }

  function Piece(document: Bytes, i: nat): Bytes {
    document[Cut(document, i)..Cut(document, i + 1)]
  }

  function PieceOf(transfer: u64, document: Bytes, key: Bytes, i: nat): Chunk {
    Chunk(transfer, i, CountOf(document), Piece(document, i), key)
  }

  /** The chunks a client sends for a document, in order. */
  method Split(transfer: u64, document: Bytes, key: Bytes) returns (r: Result<seq<Chunk>, PushError>)
    ensures r.Ok? <==> document != [] && CountOf(document) <= U32_MAX
    ensures r.Ok? ==> |r.value| == CountOf(document) && forall i | 0 <= i < |r.value| :: r.value[i] == PieceOf(transfer, document, key, i)
  {
    if document == [] {
      return Err(EmptyDocument);
    }
    var total := CountOf(document);
    if total > U32_MAX {
      return Err(TooManyChunks);
    }
    var chunks := [];
    for index := 0 to total
      invariant |chunks| == index
      invariant forall i | 0 <= i < index :: chunks[i] == PieceOf(transfer, document, key, i)
    {
      chunks := chunks + [Chunk(transfer, index, total, Piece(document, index), key)];
    }
    return Ok(chunks);
  }

  lemma {:induction false} PiecesJoin(document: Bytes, chunks: map<nat, Bytes>, k: nat)
    requires forall i | 0 <= i < k :: i in chunks && chunks[i] == Piece(document, i)
    ensures JoinTo(chunks, k) == document[..Cut(document, k)]
  {
    if k > 0 {
      PiecesJoin(document, chunks, k - 1);
    }
  }

  // ---------------------------------------------------------------------------
  // sizes
  // ---------------------------------------------------------------------------

  function SizeTo(chunks: map<nat, Bytes>, k: nat): nat {
    if k == 0 then 0 else SizeTo(chunks, k - 1) + if k - 1 in chunks then |chunks[k - 1]| else 0
  }

  lemma {:induction false} SizeAfterInsert(chunks: map<nat, Bytes>, i: nat, body: Bytes, k: nat)
    ensures SizeTo(chunks[i := body], k) <= SizeTo(chunks, k) + |body|
    ensures i !in chunks && i < k ==> SizeTo(chunks[i := body], k) == SizeTo(chunks, k) + |body|
    ensures i >= k ==> SizeTo(chunks[i := body], k) == SizeTo(chunks, k)
  {
    if k > 0 {
      SizeAfterInsert(chunks, i, body, k - 1);
    }
  }

  lemma {:induction false} SizeIsLength(chunks: map<nat, Bytes>, k: nat)
    ensures SizeTo(chunks, k) == |JoinTo(chunks, k)|
  {
    if k > 0 {
      SizeIsLength(chunks, k - 1);
    }
  }

  /** Genuine pieces never add up to more than the document. */
  lemma {:induction false} PiecesFit(document: Bytes, chunks: map<nat, Bytes>, k: nat)
    requires forall i | 0 <= i < k && i in chunks :: chunks[i] == Piece(document, i)
    ensures SizeTo(chunks, k) <= Cut(document, k)
  {
    if k > 0 {
      PiecesFit(document, chunks, k - 1);
    }
  }

  // ---------------------------------------------------------------------------
  // every run keeps the buffers small
  // ---------------------------------------------------------------------------

  ghost predicate PendingFits(p: Pending) {
    && (forall i | i in p.chunks :: i < p.total)
    && SizeTo(p.chunks, p.total) <= p.bytes <= MAX_WORKSPACE_BYTES
    && |p.chunks| != p.total
  }

  /** What is buffered for a transfer stays under the ceiling, whatever arrives. */
  ghost predicate BuffersFit(ts: Transfers) {
    forall t | t in ts :: PendingFits(ts[t])
  }

  lemma ArriveKeepsBuffersSmall(ts: Transfers, c: Chunk)
    requires BuffersFit(ts)
    ensures BuffersFit(Arrive(ts, c).1)
  {
    var p := Opened(ts, c);
    assert p.chunks == map[] || PendingFits(p);
    EmptyHasNoSize(c.total);
    SizeAfterInsert(p.chunks, c.index, c.body, c.total);
  }

  lemma {:induction false} EmptyHasNoSize(k: nat)
    ensures SizeTo(map[], k) == 0
  {
    if k > 0 {
      EmptyHasNoSize(k - 1);
    }
  }

  /** The transfers after a series of arrivals. */
  function Arrivals(ts: Transfers, cs: seq<Chunk>): Transfers {
    if cs == [] then ts else Arrive(Arrivals(ts, cs[..|cs| - 1]), cs[|cs| - 1]).1
  }

  /** What the last arrival was answered. */
  function LastReply(ts: Transfers, cs: seq<Chunk>): Reply
    requires cs != []
  {
    Arrive(Arrivals(ts, cs[..|cs| - 1]), cs[|cs| - 1]).0
  }

  lemma {:induction false} BuffersStaySmall(cs: seq<Chunk>)
    ensures BuffersFit(Arrivals(map[], cs))
  {
    if cs != [] {
      BuffersStaySmall(cs[..|cs| - 1]);
      ArriveKeepsBuffersSmall(Arrivals(map[], cs[..|cs| - 1]), cs[|cs| - 1]);
    }
  }

  // ---------------------------------------------------------------------------
  // what comes out
  // ---------------------------------------------------------------------------

  /** Whatever arrives for this transfer is a chunk of this document. */
  ghost predicate Genuine(cs: seq<Chunk>, transfer: u64, d: Document) {
    forall c | c in cs && c.transfer == transfer :: c.index < CountOf(d.body) && c == PieceOf(transfer, d.body, d.key, c.index)
  }

  ghost predicate GenuinePending(ts: Transfers, transfer: u64, d: Document) {
    transfer in ts ==>
      var p := ts[transfer];
      && p.total == CountOf(d.body) && p.key == d.key
      && forall i | i in p.chunks :: p.chunks[i] == Piece(d.body, i)
  }

  lemma ArriveKeepsGenuine(ts: Transfers, c: Chunk, transfer: u64, d: Document)
    requires GenuinePending(ts, transfer, d) && Genuine([c], transfer, d)
    ensures GenuinePending(Arrive(ts, c).1, transfer, d)
  {
    assert c in [c];
    if c.transfer != transfer {
      ArrivalsAreIsolated(ts, c, transfer);
    }
  }

  lemma {:induction false} ArrivalsStayGenuine(ts: Transfers, cs: seq<Chunk>, transfer: u64, d: Document)
    requires BuffersFit(ts) && GenuinePending(ts, transfer, d) && Genuine(cs, transfer, d)
    ensures BuffersFit(Arrivals(ts, cs)) && GenuinePending(Arrivals(ts, cs), transfer, d)
  {
    if cs != [] {
      var front, last := cs[..|cs| - 1], cs[|cs| - 1];
      assert cs == front + [last];
      ArrivalsStayGenuine(ts, front, transfer, d);
      ArriveKeepsBuffersSmall(Arrivals(ts, front), last);
      ArriveKeepsGenuine(Arrivals(ts, front), last, transfer, d);
    }
  }

  function Range(n: nat): (r: set<nat>)
    ensures forall i: nat :: i in r <==> i < n
  {
    if n == 0 then {} else Range(n - 1) + {n - 1}
  }

  lemma {:induction false} RangeSize(n: nat)
    ensures |Range(n)| == n
  {
    if n > 0 {
      RangeSize(n - 1);
    }
  }

  /** A set of indices below `n` is all of them exactly when there are `n`. */
  lemma FullExactlyWhenCounted(keys: set<nat>, n: nat)
    requires forall i | i in keys :: i < n
    ensures |keys| == n <==> keys == Range(n)
  {
    RangeSize(n);
    var missing := Range(n) - keys;
    assert Range(n) == keys + missing;
    assert |keys| + |missing| == n;
    if |keys| == n {
      assert missing == {};
    }
  }

  lemma AllPiecesMakeTheDocument(p: Pending, d: Document)
    requires p.total == CountOf(d.body) && p.key == d.key && p.chunks.Keys == Range(p.total)
    requires forall i | i in p.chunks :: p.chunks[i] == Piece(d.body, i)
    ensures Document(JoinTo(p.chunks, p.total), p.key) == d
  {
    PiecesJoin(d.body, p.chunks, p.total);
    assert d.body[..|d.body|] == d.body;
  }

  /** However the chunks of a document are repeated, lost or mixed with other
      transfers, nothing but that document ever comes back. */
  lemma NothingButTheDocument(ts: Transfers, cs: seq<Chunk>, transfer: u64, d: Document)
    requires BuffersFit(ts) && transfer !in ts && Genuine(cs, transfer, d)
    requires cs != [] && cs[|cs| - 1].transfer == transfer
    requires LastReply(ts, cs).Ok? && LastReply(ts, cs).value.Some?
    ensures LastReply(ts, cs).value.value == d
    ensures |d.body| <= MAX_WORKSPACE_BYTES
  {
    var front, last := cs[..|cs| - 1], cs[|cs| - 1];
    assert cs == front + [last] && last in cs;
    ArrivalsStayGenuine(ts, front, transfer, d);
    CompletionIsTheDocument(Arrivals(ts, front), last, transfer, d);
  }

  lemma FilledIsGenuine(ts: Transfers, c: Chunk, transfer: u64, d: Document)
    requires BuffersFit(ts) && GenuinePending(ts, transfer, d)
    requires c.index < CountOf(d.body) && c == PieceOf(transfer, d.body, d.key, c.index)
    ensures
      var p := Filled(Opened(ts, c), c);
      && p.total == CountOf(d.body) && p.key == d.key
      && (forall i | i in p.chunks :: p.chunks[i] == Piece(d.body, i) && i < p.total)
      && SizeTo(p.chunks, p.total) <= p.bytes
  {
    FilledKeepsCount(Opened(ts, c), c);
  }

  lemma CompletionIsTheDocument(ts: Transfers, c: Chunk, transfer: u64, d: Document)
    requires BuffersFit(ts) && GenuinePending(ts, transfer, d)
    requires c.index < CountOf(d.body) && c == PieceOf(transfer, d.body, d.key, c.index)
    requires Arrive(ts, c).0.Ok? && Arrive(ts, c).0.value.Some?
    ensures Arrive(ts, c).0.value.value == d && |d.body| <= MAX_WORKSPACE_BYTES
  {
    var p := Filled(Opened(ts, c), c);
    FilledIsGenuine(ts, c, transfer, d);
    FullExactlyWhenCounted(p.chunks.Keys, p.total);
    AllPiecesMakeTheDocument(p, d);
    SizeIsLength(p.chunks, p.total);
  }

  lemma FilledKeepsCount(p: Pending, c: Chunk)
    requires PendingFits(p) || (p.chunks == map[] && p.bytes == 0)
    ensures SizeTo(Filled(p, c).chunks, p.total) <= Filled(p, c).bytes
  {
    EmptyHasNoSize(p.total);
    SizeAfterInsert(p.chunks, c.index, c.body, p.total);
  }

  // ---------------------------------------------------------------------------
  // deliveries
  // ---------------------------------------------------------------------------

  /** The indices that have arrived for a transfer. */
  function Delivered(cs: seq<Chunk>, transfer: u64): set<nat> {
    if cs == [] then {}
    else
      var last := cs[|cs| - 1];
      Delivered(cs[..|cs| - 1], transfer) + if last.transfer == transfer then {last.index} else {}
  }

  /** The bytes that have arrived for a transfer, repeats included. */
  function Sent(cs: seq<Chunk>, transfer: u64): nat {
    if cs == [] then 0
    else
      var last := cs[|cs| - 1];
      Sent(cs[..|cs| - 1], transfer) + if last.transfer == transfer then |last.body| else 0
  }

  /** A transfer under way: buffered is exactly what has arrived, and every
      arrival has been counted. */
  ghost predicate UnderWay(ts: Transfers, cs: seq<Chunk>, transfer: u64, d: Document) {
    && GenuinePending(ts, transfer, d)
    && (transfer in ts <==> Delivered(cs, transfer) != {})
    && (if transfer in ts then ts[transfer].chunks.Keys == Delivered(cs, transfer) && ts[transfer].bytes == Sent(cs, transfer)
        else Sent(cs, transfer) == 0)
  }

  lemma {:induction false} DeliveredIsInRange(cs: seq<Chunk>, transfer: u64, d: Document)
    requires Genuine(cs, transfer, d)
    ensures forall i | i in Delivered(cs, transfer) :: i < CountOf(d.body)
  {
    if cs != [] {
      assert cs == cs[..|cs| - 1] + [cs[|cs| - 1]];
      DeliveredIsInRange(cs[..|cs| - 1], transfer, d);
    }
  }

  /** One more genuine arrival at a transfer under way, seen before or not. */
  lemma NextPiece(ts: Transfers, cs: seq<Chunk>, c: Chunk, transfer: u64, d: Document)
    requires UnderWay(ts, cs, transfer, d)
    requires c.transfer == transfer && c.index < CountOf(d.body) && c == PieceOf(transfer, d.body, d.key, c.index)
    ensures
      var p := Filled(Opened(ts, c), c);
      && p.chunks.Keys == Delivered(cs + [c], transfer) && p.bytes == Sent(cs + [c], transfer)
      && p.total == CountOf(d.body) && p.key == d.key && (forall i | i in p.chunks :: p.chunks[i] == Piece(d.body, i))
  {
    OneMoreDelivered(cs, c, transfer);
  }

  /** An arrival that fits its transfer: buffered, or the last one. */
  lemma FittingArrival(ts: Transfers, c: Chunk, p: Pending)
    requires c.index < c.total && Opened(ts, c).total == c.total
    requires p == Filled(Opened(ts, c), c)
    ensures Arrive(ts, c) ==
              if p.bytes > MAX_WORKSPACE_BYTES then (Err(TooLarge), ts - {c.transfer})
              else if |p.chunks| == p.total then (Ok(Some(Document(JoinTo(p.chunks, p.total), p.key))), ts - {c.transfer})
              else (Ok(None), ts[c.transfer := p])
  {
  }

  lemma OneMoreDelivered(cs: seq<Chunk>, c: Chunk, transfer: u64)
    ensures Delivered(cs + [c], transfer) == Delivered(cs, transfer) + if c.transfer == transfer then {c.index} else {}
    ensures Sent(cs + [c], transfer) == Sent(cs, transfer) + if c.transfer == transfer then |c.body| else 0
  {
    assert (cs + [c])[..|cs|] == cs;
  }

  /** An arrival that takes the bytes over the ceiling is refused. While chunks
      are missing, any other is buffered and answered with nothing yet; the last
      missing one completes the document. */
  lemma PieceIsAnswered(ts: Transfers, cs: seq<Chunk>, c: Chunk, transfer: u64, d: Document)
    requires UnderWay(ts, cs, transfer, d) && forall i | i in Delivered(cs, transfer) :: i < CountOf(d.body)
    requires c.transfer == transfer && c.index < CountOf(d.body) && c == PieceOf(transfer, d.body, d.key, c.index)
    ensures
      if Sent(cs + [c], transfer) > MAX_WORKSPACE_BYTES
      then Arrive(ts, c).0 == Err(TooLarge) && transfer !in Arrive(ts, c).1
      else if Delivered(cs + [c], transfer) == Range(CountOf(d.body))
      then Arrive(ts, c).0 == Ok(Some(d)) && transfer !in Arrive(ts, c).1
      else Arrive(ts, c).0 == Ok(None) && UnderWay(Arrive(ts, c).1, cs + [c], transfer, d)
  {
    var p := Filled(Opened(ts, c), c);
    NextPiece(ts, cs, c, transfer, d);
    OneMoreDelivered(cs, c, transfer);
    FittingArrival(ts, c, p);
    FullExactlyWhenCounted(p.chunks.Keys, p.total);
    if p.chunks.Keys == Range(p.total) {
      AllPiecesMakeTheDocument(p, d);
    }
  }

  lemma OtherArrival(ts: Transfers, cs: seq<Chunk>, c: Chunk, transfer: u64, d: Document)
    requires UnderWay(ts, cs, transfer, d) && c.transfer != transfer
    ensures UnderWay(Arrive(ts, c).1, cs + [c], transfer, d)
  {
    ArrivalsAreIsolated(ts, c, transfer);
    OneMoreDelivered(cs, c, transfer);
  }

  lemma {:induction false} StaysUnderWay(ts: Transfers, cs: seq<Chunk>, transfer: u64, d: Document)
    requires transfer !in ts && Genuine(cs, transfer, d)
    requires Sent(cs, transfer) <= MAX_WORKSPACE_BYTES && Delivered(cs, transfer) != Range(CountOf(d.body))
    ensures UnderWay(Arrivals(ts, cs), cs, transfer, d)
  {
    if cs != [] {
      var front, last := cs[..|cs| - 1], cs[|cs| - 1];
      assert cs == front + [last] && last in cs;
      DeliveredIsInRange(front, transfer, d);
      if last.transfer == transfer {
        assert Delivered(front, transfer) == Range(CountOf(d.body)) ==> Delivered(cs, transfer) == Range(CountOf(d.body));
        StaysUnderWay(ts, front, transfer, d);
        PieceIsAnswered(Arrivals(ts, front), front, last, transfer, d);
      } else {
        assert Delivered(cs, transfer) == Delivered(front, transfer);
        StaysUnderWay(ts, front, transfer, d);
        OtherArrival(Arrivals(ts, front), front, last, transfer, d);
      }
    }
  }

  /** Delivered in any order, with any repeats and mixed with any other
      transfers: until something has come back, a chunk is refused exactly when
      all that was sent, repeats included, is over the ceiling; otherwise the
      document comes back with the last missing chunk and not before. */
  lemma EveryChunkIsAnsweredExactly(ts: Transfers, cs: seq<Chunk>, transfer: u64, d: Document)
    requires transfer !in ts && Genuine(cs, transfer, d)
    requires cs != [] && cs[|cs| - 1].transfer == transfer
    requires Sent(cs[..|cs| - 1], transfer) <= MAX_WORKSPACE_BYTES && Delivered(cs[..|cs| - 1], transfer) != Range(CountOf(d.body))
    ensures LastReply(ts, cs) ==
              if Sent(cs, transfer) > MAX_WORKSPACE_BYTES then Err(TooLarge)
              else Ok(if Delivered(cs, transfer) == Range(CountOf(d.body)) then Some(d) else None)
  {
    var front, last := cs[..|cs| - 1], cs[|cs| - 1];
    assert cs == front + [last] && last in cs;
    DeliveredIsInRange(front, transfer, d);
    StaysUnderWay(ts, front, transfer, d);
    PieceIsAnswered(Arrivals(ts, front), front, last, transfer, d);
  }

  function Repeated(c: Chunk, n: nat): (cs: seq<Chunk>)
    ensures |cs| == n && forall d | d in cs :: d == c
  {
    if n == 0 then [] else Repeated(c, n - 1) + [c]
  }

  lemma {:induction false} RepeatsAddUp(c: Chunk, n: nat)
    ensures Sent(Repeated(c, n), c.transfer) == n * |c.body|
    ensures Delivered(Repeated(c, n), c.transfer) <= {c.index}
  {
    if n > 0 {
      RepeatsAddUp(c, n - 1);
      assert Repeated(c, n)[..n - 1] == Repeated(c, n - 1);
    }
  }

  /** A document under the ceiling can be refused: its first chunk, sent 513
      times, is counted 513 times. */
  lemma RepeatsCanFailADelivery(transfer: u64, d: Document)
    requires CHUNK_BYTES < |d.body| <= MAX_WORKSPACE_BYTES
    ensures LastReply(map[], Repeated(PieceOf(transfer, d.body, d.key, 0), 513)) == Err(TooLarge)
  {
    var c := PieceOf(transfer, d.body, d.key, 0);
    var cs := Repeated(c, 513);
    assert |c.body| == CHUNK_BYTES && CountOf(d.body) >= 2;
    RepeatsAddUp(c, 512);
    RepeatsAddUp(c, 513);
    assert cs[..512] == Repeated(c, 512);
    assert 1 in Range(CountOf(d.body));
    EveryChunkIsAnsweredExactly(map[], cs, transfer, d);
  }

  // ---------------------------------------------------------------------------
  // each chunk once
  // ---------------------------------------------------------------------------

  predicate EachOnce(cs: seq<Chunk>, transfer: u64) {
    cs == [] ||
    (EachOnce(cs[..|cs| - 1], transfer)
     && (cs[|cs| - 1].transfer == transfer ==> cs[|cs| - 1].index !in Delivered(cs[..|cs| - 1], transfer)))
  }

  function Pieces(document: Bytes, indices: set<nat>): map<nat, Bytes> {
    map i | i in indices :: Piece(document, i)
  }

  /** Sent once each, pieces cost what they add to the document. */
  lemma {:induction false} OncePaysOnce(cs: seq<Chunk>, transfer: u64, d: Document)
    requires Genuine(cs, transfer, d) && EachOnce(cs, transfer)
    ensures Sent(cs, transfer) == SizeTo(Pieces(d.body, Delivered(cs, transfer)), CountOf(d.body)) <= |d.body|
  {
    var n, all := CountOf(d.body), Delivered(cs, transfer);
    if cs == [] {
      assert Pieces(d.body, all) == map[];
      EmptyHasNoSize(n);
    } else {
      var front, last := cs[..|cs| - 1], cs[|cs| - 1];
      assert cs == front + [last] && last in cs;
      OncePaysOnce(front, transfer, d);
      if last.transfer == transfer {
        var before := Pieces(d.body, Delivered(front, transfer));
        assert last.body == Piece(d.body, last.index) && last.index < n;
        assert Pieces(d.body, all) == before[last.index := last.body];
        SizeAfterInsert(before, last.index, last.body, n);
      } else {
        assert all == Delivered(front, transfer);
      }
    }
    PiecesFit(d.body, Pieces(d.body, all), n);
  }

  /** Delivered once each, in any order and mixed with any other transfers, the
      chunks give back exactly the document, on the last of them and not before. */
  lemma DocumentArrivesWithItsLastChunk(ts: Transfers, cs: seq<Chunk>, transfer: u64, d: Document)
    requires |d.body| <= MAX_WORKSPACE_BYTES && transfer !in ts
    requires Genuine(cs, transfer, d) && EachOnce(cs, transfer)
    requires cs != [] && cs[|cs| - 1].transfer == transfer
    ensures LastReply(ts, cs) == Ok(if Delivered(cs, transfer) == Range(CountOf(d.body)) then Some(d) else None)
  {
    var front, last := cs[..|cs| - 1], cs[|cs| - 1];
    assert cs == front + [last] && last in cs;
    assert last.index in Range(CountOf(d.body)) && last.index !in Delivered(front, transfer);
    OncePaysOnce(front, transfer, d);
    OncePaysOnce(cs, transfer, d);
    EveryChunkIsAnsweredExactly(ts, cs, transfer, d);
  }

  /** A complete delivery succeeds exactly when the document is under the
      ceiling. */
  lemma DeliverySucceedsExactlyUnderTheCeiling(ts: Transfers, cs: seq<Chunk>, transfer: u64, d: Document)
    requires BuffersFit(ts) && transfer !in ts
    requires Genuine(cs, transfer, d) && EachOnce(cs, transfer)
    requires cs != [] && cs[|cs| - 1].transfer == transfer && Delivered(cs, transfer) == Range(CountOf(d.body))
    ensures LastReply(ts, cs) == Ok(Some(d)) <==> |d.body| <= MAX_WORKSPACE_BYTES
  {
    if |d.body| <= MAX_WORKSPACE_BYTES {
      DocumentArrivesWithItsLastChunk(ts, cs, transfer, d);
    } else if LastReply(ts, cs) == Ok(Some(d)) {
      NothingButTheDocument(ts, cs, transfer, d);
    }
  }

  /** What the client splits, sent in order to an idle core, comes back whole. */
  lemma SplitThenDeliver(transfer: u64, d: Document, cs: seq<Chunk>)
    requires d.body != [] && |d.body| <= MAX_WORKSPACE_BYTES
    requires |cs| == CountOf(d.body) && forall i | 0 <= i < |cs| :: cs[i] == PieceOf(transfer, d.body, d.key, i)
    ensures LastReply(map[], cs) == Ok(Some(d))
  {
    InOrderIsEachOnce(transfer, d, cs, |cs|);
    assert cs[..|cs|] == cs;
    DocumentArrivesWithItsLastChunk(map[], cs, transfer, d);
  }

  lemma {:induction false} InOrderIsEachOnce(transfer: u64, d: Document, cs: seq<Chunk>, k: nat)
    requires k <= |cs| == CountOf(d.body) && forall i | 0 <= i < |cs| :: cs[i] == PieceOf(transfer, d.body, d.key, i)
    ensures EachOnce(cs[..k], transfer) && Delivered(cs[..k], transfer) == Range(k)
  {
    if k > 0 {
      InOrderIsEachOnce(transfer, d, cs, k - 1);
      assert cs[..k][..k - 1] == cs[..k - 1];
    }
  }
}
