/** Packets between the data function and an ssbd server, and how either end cuts its byte stream. */
module Wire {
  import opened Bytes

  // ---- integers

  function Be16(n: uint16): seq<byte> { [n / 256, n % 256] }
  function Be32(n: uint32): seq<byte> { Be16(n / 65536) + Be16(n % 65536) }
  /** Host byte order: the message type is copied without conversion. */
  function Le16(n: uint16): seq<byte> { [n % 256, n / 256] }

  function FromBe16(s: seq<byte>): uint16
    requires |s| == 2
  {
    (s[0] as int) * 256 + s[1]
  }

  function FromBe32(s: seq<byte>): uint32
    requires |s| == 4
  {
    FromBe16(s[..2]) * 65536 + FromBe16(s[2..])
  }

  function FromLe16(s: seq<byte>): uint16
    requires |s| == 2
  {
    (s[1] as int) * 256 + s[0]
  }

  lemma Be32RoundTrip(n: uint32)
    ensures |Be32(n)| == 4 && FromBe32(Be32(n)) == n
    ensures var s := Be32(n); n == s[0] as int * 0x100_0000 + s[1] as int * 0x1_0000 + s[2] as int * 0x100 + s[3]
  {
    assert Be32(n)[..2] == Be16(n / 65536) && Be32(n)[2..] == Be16(n % 65536);
  }

  lemma FromBe32RoundTrip(s: seq<byte>)
    requires |s| == 4
    ensures Be32(FromBe32(s)) == s
  {
    var hi, lo := FromBe16(s[..2]), FromBe16(s[2..]);
    assert FromBe32(s) / 65536 == hi && FromBe32(s) % 65536 == lo;
  }

  // ---- headers

  const HEADER_SIZE := 52

  const ERR: uint16 := 0
  const ACK: uint16 := 1
  const GET: uint16 := 2
  const PREPARE: uint16 := 8
  const PREPARE_QUICK: uint16 := 9
  const PREPARE_AGREE: uint16 := 10
  const PREPARE_ABORT: uint16 := 11
  const EXECUTE: uint16 := 12
  const ROLLBACK: uint16 := 13
  const COMMIT_ACK: uint16 := 14
  const REPLICATION: uint16 := 15

  type Salt = s: seq<byte> | |s| == 4 witness [0, 0, 0, 0]

  datatype Header = Header(kind: uint16, uuid: Uuid, block: uint32, position: uint16,
                           datasize: uint32, version: uint32, salt: Salt)

  function Dump(h: Header): seq<byte> {
    Le16(h.kind) + h.uuid + Be32(h.block) + Be16(h.position) + Be32(h.datasize) + Be32(h.version) + h.salt
  }

  function Parse(s: seq<byte>): Header
    requires |s| == HEADER_SIZE
  {
    Header(FromLe16(s[..2]), s[2..34], FromBe32(s[34..38]), FromBe16(s[38..40]),
           FromBe32(s[40..44]), FromBe32(s[44..48]), s[48..])
  }

  lemma DumpSlices(h: Header)
    ensures var s := Dump(h);
            && |s| == HEADER_SIZE && s[..2] == Le16(h.kind) && s[2..34] == h.uuid && s[34..38] == Be32(h.block)
            && s[38..40] == Be16(h.position) && s[40..44] == Be32(h.datasize) && s[44..48] == Be32(h.version) && s[48..] == h.salt
            && h.kind == s[0] as int + 0x100 * s[1] as int && h.position == 0x100 * s[38] as int + s[39] as int
  {
    hide Be32, Be16, Le16;
    Be32RoundTrip(h.block);
    Be32RoundTrip(h.datasize);
    Be32RoundTrip(h.version);
    ShortBytes(h.kind, h.position);
    var s := Dump(h);
    assert s[..2][0] == s[0] && s[..2][1] == s[1] && s[38..40][0] == s[38] && s[38..40][1] == s[39];
  }

  lemma ShortBytes(a: uint16, b: uint16)
    ensures var x, y := Le16(a), Be16(b);
            |x| == 2 && a == x[0] as int + 0x100 * x[1] as int && |y| == 2 && b == 0x100 * y[0] as int + y[1] as int
  {
  }

  /** Headers and 52-byte strings correspond one to one. */
  lemma HeaderRoundTrip(h: Header)
    ensures |Dump(h)| == HEADER_SIZE && Parse(Dump(h)) == h
  {
    hide Dump, Be32, FromBe32;
    DumpSlices(h);
    Be32RoundTrip(h.block);
    Be32RoundTrip(h.datasize);
    Be32RoundTrip(h.version);
  }

  lemma ParseRoundTrip(s: seq<byte>)
    requires |s| == HEADER_SIZE
    ensures Dump(Parse(s)) == s
  {
    hide Be32, FromBe32;
    FromBe32RoundTrip(s[34..38]);
    FromBe32RoundTrip(s[40..44]);
    FromBe32RoundTrip(s[44..48]);
    assert s == s[..2] + s[2..34] + s[34..38] + s[38..40] + s[40..44] + s[44..48] + s[48..];
  }

  // ---- packets

  datatype Packet = Packet(header: Header, body: seq<byte>)

  predicate Sendable(p: Packet) { |p.body| < 0x1_0000_0000 }

  /** The packet as it goes out.  A read request is its header alone, whose datasize is the length to
      read; every other packet carries its body, and its datasize is set to the body's length. */
  function Sent(p: Packet, request: bool): Packet
    requires Sendable(p)
  {
    if request && p.header.kind == GET then Packet(p.header, [])
    else Packet(p.header.(datasize := |p.body|), p.body)
  }

  function Serialize(p: Packet, request: bool): seq<byte>
    requires Sendable(p)
  {
    Dump(Sent(p, request).header) + Sent(p, request).body
  }

  predicate AllSendable(ps: seq<Packet>) { forall p | p in ps :: Sendable(p) }

  function Stream(ps: seq<Packet>, request: bool): seq<byte>
    requires AllSendable(ps)
  {
    if ps == [] then [] else Serialize(ps[0], request) + Stream(ps[1..], request)
  }

  function SentAll(ps: seq<Packet>, request: bool): seq<Packet>
    requires AllSendable(ps)
  {
    if ps == [] then [] else [Sent(ps[0], request)] + SentAll(ps[1..], request)
  }

  /** How many bytes the receiver reads after a header: the client always `datasize`; the server
      depending on the message type, None for a type it has no case for, after which it stops. */
  function BodyLength(h: Header, request: bool): Option<nat> {
    if !request then Some(h.datasize)
    else if h.kind in {PREPARE, PREPARE_QUICK, EXECUTE, REPLICATION} then Some(h.datasize)
    else if h.kind in {GET, ROLLBACK, ERR, ACK, PREPARE_AGREE, PREPARE_ABORT, COMMIT_ACK} then Some(0)
    else None
  }

  /** The first packet of a stream, if all of it has arrived and the receiver goes on. */
  function ReadOne(s: seq<byte>, request: bool): Option<Packet> {
    if |s| < HEADER_SIZE then None else
    var h := Parse(s[..HEADER_SIZE]);
    match BodyLength(h, request)
    case None => None
    case Some(n) => if |s| < HEADER_SIZE + n then None else Some(Packet(h, s[HEADER_SIZE..HEADER_SIZE + n]))
  }

  datatype Frames = Frames(packets: seq<Packet>, rest: seq<byte>)

  function CutStream(s: seq<byte>, request: bool): Frames
    decreases |s|
  {
    match ReadOne(s, request)
    case None => Frames([], s)
    case Some(p) => var c := CutStream(s[HEADER_SIZE + |p.body|..], request); Frames([p] + c.packets, c.rest)
  }

  /** The receiving loop: a header, then the body its type asks for, until the input stops it. */
  method Receive(s: seq<byte>, request: bool) returns (packets: seq<Packet>, cursor: nat)
    ensures cursor <= |s| && CutStream(s, request) == Frames(packets, s[cursor..])
  {
    hide ReadOne, CutStream;
    packets, cursor := [], 0;
    assert s[0..] == s;
    while true
      invariant cursor <= |s|
      invariant var c := CutStream(s[cursor..], request); CutStream(s, request) == Frames(packets + c.packets, c.rest)
      decreases |s| - cursor
    {
      CutStep(s, cursor, request);
      var next := ReadOne(s[cursor..], request);
      if next.None? { break; }
      packets := packets + [next.value];
      cursor := cursor + HEADER_SIZE + |next.value.body|;
    }
  }

  /** One turn of the loop: the packet at the cursor, then the stream behind it. */
  lemma CutStep(s: seq<byte>, cursor: nat, request: bool)
    requires cursor <= |s|
    ensures match ReadOne(s[cursor..], request)
            case None => CutStream(s[cursor..], request) == Frames([], s[cursor..])
            case Some(p) =>
              var after := cursor + HEADER_SIZE + |p.body|;
              after <= |s| && var c := CutStream(s[after..], request);
              CutStream(s[cursor..], request) == Frames([p] + c.packets, c.rest)
  {
    var next := ReadOne(s[cursor..], request);
    if next.Some? {
      ReadOneFits(s[cursor..], request);
      hide ReadOne;
      var size := HEADER_SIZE + |next.value.body|;
      assert s[cursor..][size..] == s[cursor + size..];
    }
  }

  lemma ReadOneFits(s: seq<byte>, request: bool)
    requires ReadOne(s, request).Some?
    ensures HEADER_SIZE + |ReadOne(s, request).value.body| <= |s|
  {
  }

  // ---- framing

  /** The request types the data function emits. */
  predicate Emitted(p: Packet) {
    p.header.kind in {GET, PREPARE, PREPARE_QUICK, EXECUTE, ROLLBACK, REPLICATION}
  }

  /** The server reads no body after a rollback, so that is the one request that must not have one. */
  predicate RollbackIsBare(p: Packet) { p.header.kind == ROLLBACK ==> p.body == [] }

  lemma ReadOneOfSerialized(p: Packet, request: bool, tail: seq<byte>)
    requires Sendable(p) && (request ==> Emitted(p) && RollbackIsBare(p))
    ensures ReadOne(Serialize(p, request) + tail, request) == Some(Sent(p, request))
    ensures |Serialize(p, request)| == HEADER_SIZE + |Sent(p, request).body|
  {
    hide Dump, Parse;
    var q := Sent(p, request);
    HeaderRoundTrip(q.header);
    var s := Serialize(p, request) + tail;
    assert s[..HEADER_SIZE] == Dump(q.header);
    assert s[HEADER_SIZE..HEADER_SIZE + |q.body|] == q.body;
  }

  /** What was sent is what is received: the same packets, in order, with no byte left over. */
  lemma {:induction false} StreamIsFramed(ps: seq<Packet>, request: bool)
    requires AllSendable(ps) && (request ==> forall p | p in ps :: Emitted(p) && RollbackIsBare(p))
    ensures CutStream(Stream(ps, request), request) == Frames(SentAll(ps, request), [])
    decreases |ps|
  {
    hide ReadOne, Serialize, Sent;
    if ps == [] { NothingToRead(request); } else {
      assert ps[0] in ps;
      var tail := Stream(ps[1..], request);
      ReadOneOfSerialized(ps[0], request, tail);
      StreamIsFramed(ps[1..], request);
      assert (Serialize(ps[0], request) + tail)[|Serialize(ps[0], request)|..] == tail;
    }
  }

  lemma NothingToRead(request: bool)
    ensures ReadOne([], request).None?
  {
  }

  lemma {:induction false} ReceivedRollbacksAreBare(s: seq<byte>)
    ensures forall p | p in CutStream(s, true).packets :: RollbackIsBare(p)
    decreases |s|
  {
    var next := ReadOne(s, true);
    if next.Some? { ReceivedRollbacksAreBare(s[HEADER_SIZE + |next.value.body|..]); }
  }

  /** Two headers that agree in everything but the size. */
  predicate SameButSize(h: Header, h': Header) {
    && h.kind == h'.kind && h.uuid == h'.uuid && h.block == h'.block && h.position == h'.position
    && h.version == h'.version && h.salt == h'.salt
  }

  lemma SentKeeps(p: Packet, request: bool)
    requires Sendable(p)
    ensures var q, bare := Sent(p, request), request && p.header.kind == GET;
            && SameButSize(p.header, q.header) && q.body == (if bare then [] else p.body)
            && q.header.datasize == if bare then p.header.datasize else |p.body|
  {
  }

  lemma {:induction false} SentAllAt(ps: seq<Packet>, request: bool, i: nat)
    requires AllSendable(ps) && i < |ps|
    ensures i < |SentAll(ps, request)| && SentAll(ps, request)[i] == Sent(ps[i], request)
    decreases |ps|
  {
    if i > 0 { SentAllAt(ps[1..], request, i - 1); }
  }

  /** The receiver has got this packet: the header that was sent, with the body behind it.  A read request has no body and
      keeps the size that it asks for; any other packet announces the size of its body. */
  predicate Got(p: Packet, q: Packet, request: bool) {
    var bare := request && p.header.kind == GET;
    && SameButSize(p.header, q.header) && q.body == (if bare then [] else p.body)
    && q.header.datasize == if bare then p.header.datasize else |p.body|
  }

  /** Exactly these packets, in order, and no byte is left over. */
  predicate GotAll(ps: seq<Packet>, f: Frames, request: bool) {
    f.rest == [] && |f.packets| == |ps| && forall i | 0 <= i < |ps| :: Got(ps[i], f.packets[i], request)
  }

  /** What is sent is what the receiver gets. */
  lemma ReceivedIs(ps: seq<Packet>, request: bool)
    requires AllSendable(ps) && (request ==> forall p | p in ps :: Emitted(p) && RollbackIsBare(p))
    ensures GotAll(ps, CutStream(Stream(ps, request), request), request)
  {
    hide CutStream, Stream, SentAll, Sent;
    StreamIsFramed(ps, request);
    SentAllCount(ps, request);
    forall i | 0 <= i < |ps| ensures Got(ps[i], SentAll(ps, request)[i], request) {
      SentAllAt(ps, request, i);
      SentKeeps(ps[i], request);
    }
  }

  lemma {:induction false} SentAllCount(ps: seq<Packet>, request: bool)
    requires AllSendable(ps)
    ensures |SentAll(ps, request)| == |ps|
    decreases |ps|
  {
    if ps != [] { SentAllCount(ps[1..], request); }
  }

  /** A request stream is understood exactly when its rollbacks carry no body. */
  lemma RequestsFramedIff(ps: seq<Packet>)
    requires AllSendable(ps) && forall p | p in ps :: Emitted(p)
    ensures GotAll(ps, CutStream(Stream(ps, true), true), true) <==> forall p | p in ps :: RollbackIsBare(p)
  {
    hide CutStream, Stream;
    if forall p | p in ps :: RollbackIsBare(p) { ReceivedIs(ps, true); } else {
      var i :| 0 <= i < |ps| && !RollbackIsBare(ps[i]);
      ReceivedRollbacksAreBare(Stream(ps, true));
      var f := CutStream(Stream(ps, true), true);
      if GotAll(ps, f, true) { GotBare(ps[i], f.packets[i]); }
    }
  }

  lemma GotBare(p: Packet, q: Packet)
    requires Got(p, q, true) && RollbackIsBare(q)
    ensures RollbackIsBare(p)
  {
  }
}
