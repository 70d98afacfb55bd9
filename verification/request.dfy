/**
 * One netlink request/response exchange (`netlink_request`) and the
 * generic-netlink family resolution in front of it (`netlink_request_genl`).
 *
 * The socket is an input: whether opening and connecting it fail, what
 * `send` reports, and the finite list of datagrams (or receive errors) the
 * kernel delivers.  The netlink wire codec is opaque: a message's payload
 * length and the parser of a byte slice are function-valued parameters.
 */
module NetlinkRequest {
  import opened Primitives

  const MAX_NETLINK_BUFFER_LENGTH: nat := 4096
  const NETLINK_HEADER_LEN: nat := 16

  // Header flags (Linux netlink.h)
  const NLM_F_REQUEST: bv16 := 0x001
  const NLM_F_ACK: bv16 := 0x004
  const NLM_F_ROOT: bv16 := 0x100
  const NLM_F_MATCH: bv16 := 0x200
  const NLM_F_DUMP: bv16 := NLM_F_ROOT | NLM_F_MATCH
  const NLM_F_EXCL: bv16 := 0x200
  const NLM_F_CREATE: bv16 := 0x400

  /** Flags used when the caller gives none. */
  const DEFAULT_FLAGS: bv16 := NLM_F_REQUEST | NLM_F_ACK | NLM_F_EXCL | NLM_F_CREATE

  /** Protocol number of generic netlink sockets. */
  const NETLINK_GENERIC: int := 16

  /** The generic-netlink controller family has this fixed id. */
  const GENL_ID_CTRL: u16 := 0x10

  /** The `io::ErrorKind`s the exchange can fail with. */
  datatype IoError =
    | InvalidInput     // serialized request larger than the buffer
    | UnexpectedEof    // short write
    | InvalidData      // unparsable or unexpected response
    | NotFound         // expected attribute missing
    | Kernel(code: int)  // carried by an Error payload
    | Os(code: int)      // a failing socket call

  /** `io::Result`. */
  type IoResult<T> = Result<T, IoError>

  /** How an exchange ends. `Pending`: the given datagrams ran out before a
      terminal message, so the real call would wait in `recv` for more.
      `Panicked`: a declared length moved the offset past the end of the
      datagram, and slicing the buffer there panics. */
  datatype Outcome<T> = Returned(result: IoResult<T>) | Pending | Panicked

  predicate Failed<T>(o: Outcome<T>) {
    !o.Returned? || o.result.Err?
  }

  /** A failed outcome, passed on unchanged at another result type. */
  function Relabel<T, U>(o: Outcome<T>): (r: Outcome<U>)
    requires Failed(o)
    ensures Failed(r)
    ensures r.Pending? <==> o.Pending?
    ensures r.Panicked? <==> o.Panicked?
    ensures r.Returned? ==> o.Returned? && r.result.error == o.result.error
  {
    match o
    case Pending => Pending
    case Panicked => Panicked
    case Returned(res) => Returned(Err(res.error))
  }

  datatype Header = Header(length: nat, flags: bv16)

  datatype Payload<I> =
    | InnerMessage(inner: I)
    | Ack
    | Done
    | Error(code: int)
    | Noop
    | Overrun

  datatype NetlinkMessage<I> = NetlinkMessage(header: Header, payload: Payload<I>)

  /** The opaque wire codec: serialized payload length of an inner message,
      and the parser of the message at the front of a byte slice. */
  datatype Codec<!I> = Codec(payloadLen: I -> nat, deserialize: seq<byte> -> Option<NetlinkMessage<I>>)

  datatype SendResult = Sent(count: nat) | SendFailed(code: int)

  datatype Incoming = Datagram(bytes: seq<byte>) | RecvFailed(code: int)

  /** What the operating system and the kernel do with one fresh socket. */
  datatype Socket = Socket(
    openError: Option<int>,
    connectError: Option<int>,
    sendResult: SendResult,
    incoming: seq<Incoming>)

  /** The observable effect of one exchange: how it ended, the protocol a
      socket was requested for (None: no socket requested), the finalized
      message handed to `send` (None: nothing sent), and how many entries
      of `incoming` were read. */
  datatype Exchange<I> = Exchange(
    outcome: Outcome<seq<NetlinkMessage<I>>>,
    protocol: Option<int>,
    sent: Option<NetlinkMessage<I>>,
    read: nat)

  /** The header flags sent: the caller's, or REQUEST|ACK|EXCL|CREATE. */
  function EffectiveFlags(flags: Option<bv16>): (f: bv16)
    ensures flags.Some? ==> f == flags.value
    ensures flags.None? ==> f == 0x0605
  {
    match flags
    case Some(f) => f
    case None => DEFAULT_FLAGS
  }

  /** `buffer_len` of the netlink message wrapping `message`. */
  function RequestLength<I>(codec: Codec<I>, message: I): nat {
    NETLINK_HEADER_LEN + codec.payloadLen(message)
  }

  // ---------------------------------------------------------------------
  // The response loop, as the source runs it

  /** Where the walk over one datagram leaves the exchange. */
  datatype Step<I> =
    | Next(acc: seq<NetlinkMessage<I>>)
    | Stop(outcome: Outcome<seq<NetlinkMessage<I>>>)

  /** The inner loop: parse the message at `offset`, stop on a terminal or
      unparsable one, otherwise append it and advance by its declared
      length until the datagram is used up or the length is 0. */
  function WalkDatagram<I>(codec: Codec<I>, buf: seq<byte>, offset: nat, acc: seq<NetlinkMessage<I>>): (r: Step<I>)
    requires offset <= |buf|
    ensures r.Stop? ==> !r.outcome.Pending? && r.outcome != Returned(Err(InvalidInput))
    ensures r.Next? ==> |acc| < |r.acc| && r.acc[..|acc|] == acc
    decreases |buf| - offset
  {
    match codec.deserialize(buf[offset..])
    case None => Stop(Returned(Err(InvalidData)))
    case Some(m) =>
      if m.payload.Ack? || m.payload.Done? then Stop(Returned(Ok(acc)))
      else if m.payload.Error? then Stop(Returned(Err(Kernel(m.payload.code))))
      else
        var next := offset + m.header.length;
        if next == |buf| || m.header.length == 0 then Next(acc + [m])
        else if next > |buf| then Stop(Panicked)
        else WalkDatagram(codec, buf, next, acc + [m])
  }

  datatype Tail<I> = Tail(outcome: Outcome<seq<NetlinkMessage<I>>>, read: nat)

  /** The outer loop: read entry `i` of `incoming` and walk it. */
  function Receive<I>(codec: Codec<I>, incoming: seq<Incoming>, i: nat, acc: seq<NetlinkMessage<I>>): (r: Tail<I>)
    requires i <= |incoming|
    ensures i <= r.read <= |incoming|
    ensures r.outcome.Pending? ==> r.read == |incoming|
    ensures !r.outcome.Pending? ==> i < r.read
    ensures r.outcome != Returned(Err(InvalidInput))
    decreases |incoming| - i
  {
    if i == |incoming| then Tail(Pending, i)
    else
      match incoming[i]
      case RecvFailed(code) => Tail(Returned(Err(Os(code))), i + 1)
      case Datagram(bytes) =>
        match WalkDatagram(codec, bytes, 0, acc)
        case Stop(o) => Tail(o, i + 1)
        case Next(acc') => Receive(codec, incoming, i + 1, acc')
  }

  /** `netlink_request`: check the size, apply the flags, open, connect and
      send, then collect responses. */
  function Request<I>(message: I, flags: Option<bv16>, proto: int, codec: Codec<I>, sock: Socket): (r: Exchange<I>)
    ensures r.outcome == Returned(Err(InvalidInput)) <==> RequestLength(codec, message) > MAX_NETLINK_BUFFER_LENGTH
    ensures RequestLength(codec, message) > MAX_NETLINK_BUFFER_LENGTH ==>
              r.protocol.None? && r.sent.None? && r.read == 0
    ensures r.protocol.Some? ==> r.protocol.value == proto
    ensures r.sent.Some? ==>
              && r.protocol.Some?
              && r.sent.value.header.flags == EffectiveFlags(flags)
              && r.sent.value.header.length == RequestLength(codec, message)
              && r.sent.value.payload == InnerMessage(message)
    ensures r.read > 0 ==> r.sent.Some? && sock.sendResult == Sent(RequestLength(codec, message))
    ensures RequestLength(codec, message) <= MAX_NETLINK_BUFFER_LENGTH &&
            sock.openError.None? && sock.connectError.None? &&
            sock.sendResult.Sent? && sock.sendResult.count != RequestLength(codec, message) ==>
              r.outcome == Returned(Err(UnexpectedEof)) && r.sent.Some? && r.read == 0
    ensures RequestLength(codec, message) <= MAX_NETLINK_BUFFER_LENGTH && sock.openError.Some? ==>
              r.outcome == Returned(Err(Os(sock.openError.value))) && r.sent.None? && r.read == 0
    ensures RequestLength(codec, message) <= MAX_NETLINK_BUFFER_LENGTH && sock.openError.None? &&
            sock.connectError.Some? ==>
              r.outcome == Returned(Err(Os(sock.connectError.value))) && r.sent.None? && r.read == 0
    ensures RequestLength(codec, message) <= MAX_NETLINK_BUFFER_LENGTH &&
            sock.openError.None? && sock.connectError.None? && sock.sendResult.SendFailed? ==>
              r.outcome == Returned(Err(Os(sock.sendResult.code))) && r.sent.Some? && r.read == 0
    ensures r.read <= |sock.incoming|
  {
    var len := RequestLength(codec, message);
    if len > MAX_NETLINK_BUFFER_LENGTH then
      Exchange(Returned(Err(InvalidInput)), None, None, 0)
    else
      var req := NetlinkMessage(Header(len, EffectiveFlags(flags)), InnerMessage(message));
      if sock.openError.Some? then
        Exchange(Returned(Err(Os(sock.openError.value))), Some(proto), None, 0)
      else if sock.connectError.Some? then
        Exchange(Returned(Err(Os(sock.connectError.value))), Some(proto), None, 0)
      else
        match sock.sendResult
        case SendFailed(code) => Exchange(Returned(Err(Os(code))), Some(proto), Some(req), 0)
        case Sent(n) =>
          if n != len then Exchange(Returned(Err(UnexpectedEof)), Some(proto), Some(req), 0)
          else
            var t := Receive(codec, sock.incoming, 0, []);
            Exchange(t.outcome, Some(proto), Some(req), t.read)
  }

  /** `netlink_request` with its two nested loops, proved to do what
      `Request` says. */
  method NetlinkRequest<I>(message: I, flags: Option<bv16>, proto: int, codec: Codec<I>, sock: Socket)
    returns (r: Exchange<I>)
    ensures r == Request(message, flags, proto, codec, sock)
  {
    var len := RequestLength(codec, message);
    if len > MAX_NETLINK_BUFFER_LENGTH {
      return Exchange(Returned(Err(InvalidInput)), None, None, 0);
    }
    var req := NetlinkMessage(Header(len, EffectiveFlags(flags)), InnerMessage(message));
    if sock.openError.Some? {
      return Exchange(Returned(Err(Os(sock.openError.value))), Some(proto), None, 0);
    }
    if sock.connectError.Some? {
      return Exchange(Returned(Err(Os(sock.connectError.value))), Some(proto), None, 0);
    }
    if sock.sendResult.SendFailed? {
      return Exchange(Returned(Err(Os(sock.sendResult.code))), Some(proto), Some(req), 0);
    }
    if sock.sendResult.count != len {
      return Exchange(Returned(Err(UnexpectedEof)), Some(proto), Some(req), 0);
    }

    var responses: seq<NetlinkMessage<I>> := [];
    var i := 0;
    while i < |sock.incoming|
      invariant i <= |sock.incoming|
      invariant Receive(codec, sock.incoming, i, responses) == Receive(codec, sock.incoming, 0, [])
      decreases |sock.incoming| - i
    {
      var received := sock.incoming[i];
      if received.RecvFailed? {
        return Exchange(Returned(Err(Os(received.code))), Some(proto), Some(req), i + 1);
      }
      var buf := received.bytes;
      ghost var before := responses;
      var offset := 0;
      while true
        invariant offset <= |buf|
        invariant WalkDatagram(codec, buf, offset, responses) == WalkDatagram(codec, buf, 0, before)
        decreases |buf| - offset
      {
        var parsed := codec.deserialize(buf[offset..]);
        if parsed.None? {
          return Exchange(Returned(Err(InvalidData)), Some(proto), Some(req), i + 1);
        }
        var response := parsed.value;
        if response.payload.Ack? || response.payload.Done? {
          return Exchange(Returned(Ok(responses)), Some(proto), Some(req), i + 1);
        }
        if response.payload.Error? {
          return Exchange(Returned(Err(Kernel(response.payload.code))), Some(proto), Some(req), i + 1);
        }
        responses := responses + [response];
        var next := offset + response.header.length;
        if next == |buf| || response.header.length == 0 {
          break;
        }
        if next > |buf| {
          // the slice `buf[next..]` at the top of the next iteration
          return Exchange(Panicked, Some(proto), Some(req), i + 1);
        }
        offset := next;
      }
      i := i + 1;
    }
    return Exchange(Pending, Some(proto), Some(req), |sock.incoming|);
  }

  // ---------------------------------------------------------------------
  // Reference definition: the stream of everything the datagrams contain

  /** One thing met while reading: a parsed message, a slice that does not
      parse, an offset past the datagram's end, or a failing `recv`. */
  datatype Event<I> = Parsed(m: NetlinkMessage<I>) | Unparsable | PastEnd | RecvError(code: int)

  predicate IsStop<I>(e: Event<I>) {
    !e.Parsed? || e.m.payload.Ack? || e.m.payload.Done? || e.m.payload.Error?
  }

  /** Every message of one datagram, found by advancing the offset by each
      declared length; only the last event can have length 0 or be a
      failure. */
  function Scan<I>(codec: Codec<I>, buf: seq<byte>, offset: nat): (s: seq<Event<I>>)
    requires offset <= |buf|
    ensures |s| > 0
    ensures forall j :: 0 <= j < |s| - 1 ==> s[j].Parsed? && s[j].m.header.length > 0
    decreases |buf| - offset
  {
    match codec.deserialize(buf[offset..])
    case None => [Unparsable]
    case Some(m) =>
      var next := offset + m.header.length;
      if next == |buf| || m.header.length == 0 then [Parsed(m)]
      else if next > |buf| then [Parsed(m), PastEnd]
      else [Parsed(m)] + Scan(codec, buf, next)
  }

  function EventsOf<I>(codec: Codec<I>, x: Incoming): seq<Event<I>> {
    match x
    case RecvFailed(code) => [RecvError(code)]
    case Datagram(bytes) => Scan(codec, bytes, 0)
  }

  /** The events of all datagrams, in arrival order. */
  function Stream<I>(codec: Codec<I>, incoming: seq<Incoming>): seq<Event<I>>
    decreases |incoming|
  {
    if incoming == [] then [] else EventsOf(codec, incoming[0]) + Stream(codec, incoming[1..])
  }

  /** Index of the first stop event (|s| when there is none). */
  function FirstStop<I>(s: seq<Event<I>>): (k: nat)
    ensures k <= |s|
    ensures forall j :: 0 <= j < k ==> !IsStop(s[j])
    ensures k < |s| ==> IsStop(s[k])
  {
    if s == [] then 0 else if IsStop(s[0]) then 0 else 1 + FirstStop(s[1..])
  }

  /** The messages of the parsed events of `s`, in order. */
  function ParsedMessages<I>(s: seq<Event<I>>): (ms: seq<NetlinkMessage<I>>)
    ensures (forall j :: 0 <= j < |s| ==> s[j].Parsed?) ==>
              |ms| == |s| && forall j :: 0 <= j < |s| ==> ms[j] == s[j].m
  {
    if s == [] then []
    else
      var rest := ParsedMessages(s[1..]);
      assert (forall j :: 0 <= j < |s| ==> s[j].Parsed?) ==> forall j :: 0 <= j < |s| - 1 ==> s[1..][j].Parsed?;
      (if s[0].Parsed? then [s[0].m] else []) + rest
  }

  /** How an exchange reading `s` ends: at the first stop event; an Ack or
      Done returns every message before it, in order, and nothing else. */
  function Verdict<I>(s: seq<Event<I>>): Outcome<seq<NetlinkMessage<I>>> {
    var k := FirstStop(s);
    if k == |s| then Pending
    else
      match s[k]
      case Unparsable => Returned(Err(InvalidData))
      case PastEnd => Panicked
      case RecvError(code) => Returned(Err(Os(code)))
      case Parsed(m) =>
        if m.payload.Error? then Returned(Err(Kernel(m.payload.code)))
        else Returned(Ok(ParsedMessages(s[..k])))
  }

  /** Messages collected before `o` are put in front of its result. */
  function WithPrefix<I>(acc: seq<NetlinkMessage<I>>, o: Outcome<seq<NetlinkMessage<I>>>): Outcome<seq<NetlinkMessage<I>>> {
    match o
    case Returned(Ok(ms)) => Returned(Ok(acc + ms))
    case _ => o
  }

  lemma WithPrefixEmpty<I>(o: Outcome<seq<NetlinkMessage<I>>>)
    ensures WithPrefix([], o) == o
  {
    if o.Returned? && o.result.Ok? {
      assert [] + o.result.value == o.result.value;
    }
  }

  lemma WithPrefixAssoc<I>(a: seq<NetlinkMessage<I>>, b: seq<NetlinkMessage<I>>, o: Outcome<seq<NetlinkMessage<I>>>)
    ensures WithPrefix(a, WithPrefix(b, o)) == WithPrefix(a + b, o)
  {
    if o.Returned? && o.result.Ok? {
      assert a + (b + o.result.value) == (a + b) + o.result.value;
    }
  }

  /** Reading one event first: a stop event decides alone; any other
      contributes its message in front. */
  lemma {:induction false} VerdictCons<I>(e: Event<I>, s: seq<Event<I>>)
    ensures IsStop(e) ==> Verdict([e] + s) == Verdict([e])
    ensures !IsStop(e) ==> Verdict([e] + s) == WithPrefix([e.m], Verdict(s))
  {
    var es := [e] + s;
    assert es[0] == e && es[1..] == s;
    if IsStop(e) {
      assert FirstStop(es) == 0 && FirstStop([e]) == 0;
      assert es[..0] == [e][..0];
    } else {
      var k := FirstStop(s);
      assert FirstStop(es) == k + 1;
      assert es[k + 1..] == s[k..];
      if k < |s| {
        assert es[k + 1] == s[k];
        assert es[..k + 1] == [e] + s[..k];
        assert ([e] + s[..k])[1..] == s[..k];
        assert ParsedMessages(es[..k + 1]) == [e.m] + ParsedMessages(s[..k]);
      }
    }
  }

  /** The inner loop agrees with the stream of its datagram, whatever
      follows it. */
  lemma {:induction false} WalkMatchesScan<I>(codec: Codec<I>, buf: seq<byte>, offset: nat,
                                              acc: seq<NetlinkMessage<I>>, rest: seq<Event<I>>)
    requires offset <= |buf|
    ensures match WalkDatagram(codec, buf, offset, acc)
      case Stop(o) => o == WithPrefix(acc, Verdict(Scan(codec, buf, offset) + rest))
      case Next(acc') => WithPrefix(acc', Verdict(rest)) == WithPrefix(acc, Verdict(Scan(codec, buf, offset) + rest))
    decreases |buf| - offset
  {
    var s := Scan(codec, buf, offset);
    match codec.deserialize(buf[offset..])
    case None =>
      VerdictCons(Unparsable, rest);
      assert Verdict<I>([Unparsable]) == Returned(Err(InvalidData)) by {
        assert FirstStop<I>([Unparsable]) == 0;
      }
    case Some(m) =>
      var e := Parsed(m);
      var next := offset + m.header.length;
      var tail := if next == |buf| || m.header.length == 0 then [] else if next > |buf| then [PastEnd] else Scan(codec, buf, next);
      assert s == [e] + tail;
      assert s + rest == [e] + (tail + rest);
      VerdictCons(e, tail + rest);
      if IsStop(e) {
        assert FirstStop([e]) == 0;
        assert [e][..0] == [];
        if m.payload.Ack? || m.payload.Done? {
          assert acc + [] == acc;
        }
      } else {
        WithPrefixAssoc(acc, [m], Verdict(tail + rest));
        if next == |buf| || m.header.length == 0 {
          assert tail + rest == rest;
        } else if next > |buf| {
          VerdictCons(PastEnd, rest);
          assert FirstStop<I>([PastEnd]) == 0;
        } else {
          WalkMatchesScan(codec, buf, next, acc + [m], rest);
        }
      }
  }

  /** The outer loop agrees with the stream of the datagrams it has left. */
  lemma {:induction false} ReceiveMatchesStream<I>(codec: Codec<I>, incoming: seq<Incoming>, i: nat, acc: seq<NetlinkMessage<I>>)
    requires i <= |incoming|
    ensures Receive(codec, incoming, i, acc).outcome == WithPrefix(acc, Verdict(Stream(codec, incoming[i..])))
    decreases |incoming| - i
  {
    if i == |incoming| {
      assert incoming[i..] == [];
    } else {
      var rest := Stream(codec, incoming[i + 1..]);
      assert incoming[i..][0] == incoming[i] && incoming[i..][1..] == incoming[i + 1..];
      assert Stream(codec, incoming[i..]) == EventsOf(codec, incoming[i]) + rest;
      match incoming[i]
      case RecvFailed(code) =>
        VerdictCons(RecvError(code), rest);
        assert FirstStop<I>([RecvError(code)]) == 0;
      case Datagram(bytes) =>
        WalkMatchesScan(codec, bytes, 0, acc, rest);
        match WalkDatagram(codec, bytes, 0, acc)
        case Stop(o) =>
        case Next(acc') =>
          ReceiveMatchesStream(codec, incoming, i + 1, acc');
    }
  }

  /** Reading stops with the datagram that ends the exchange: whatever the
      kernel sends after it changes nothing. */
  lemma {:induction false} ReceiveStopsAtTerminal<I>(codec: Codec<I>, incoming: seq<Incoming>, later: seq<Incoming>,
                                                     i: nat, acc: seq<NetlinkMessage<I>>)
    requires i <= |incoming|
    requires !Receive(codec, incoming, i, acc).outcome.Pending?
    ensures Receive(codec, incoming + later, i, acc) == Receive(codec, incoming, i, acc)
    decreases |incoming| - i
  {
    assert (incoming + later)[i] == incoming[i];
    match incoming[i]
    case RecvFailed(_) =>
    case Datagram(bytes) =>
      match WalkDatagram(codec, bytes, 0, acc)
      case Stop(_) =>
      case Next(acc') =>
        ReceiveStopsAtTerminal(codec, incoming, later, i + 1, acc');
  }

  /** Once the request is fully sent, the exchange ends as the stream of
      received datagrams says: the messages before the first Ack or Done,
      in arrival order across datagrams, or the first failure. */
  lemma ExchangeFollowsStream<I>(message: I, flags: Option<bv16>, proto: int, codec: Codec<I>, sock: Socket)
    requires RequestLength(codec, message) <= MAX_NETLINK_BUFFER_LENGTH
    requires sock.openError.None? && sock.connectError.None?
    requires sock.sendResult == Sent(RequestLength(codec, message))
    ensures Request(message, flags, proto, codec, sock).outcome == Verdict(Stream(codec, sock.incoming))
  {
    ReceiveMatchesStream(codec, sock.incoming, 0, []);
    assert sock.incoming[0..] == sock.incoming;
    WithPrefixEmpty(Verdict(Stream(codec, sock.incoming)));
  }

  /** Two datagrams, the first with two inner messages and the second with
      one inner message followed by Done: three messages, in order. */
  lemma TwoDatagramExchange<I>(codec: Codec<I>, d1: seq<byte>, d2: seq<byte>,
                               m1: NetlinkMessage<I>, m2: NetlinkMessage<I>, m3: NetlinkMessage<I>, done: NetlinkMessage<I>)
    requires m1.payload.InnerMessage? && m2.payload.InnerMessage? && m3.payload.InnerMessage? && done.payload.Done?
    requires 0 < m1.header.length && 0 < m2.header.length && m1.header.length + m2.header.length == |d1|
    requires codec.deserialize(d1) == Some(m1) && codec.deserialize(d1[m1.header.length..]) == Some(m2)
    requires 0 < m3.header.length < |d2|
    requires codec.deserialize(d2) == Some(m3) && codec.deserialize(d2[m3.header.length..]) == Some(done)
    ensures Receive(codec, [Datagram(d1), Datagram(d2)], 0, []) == Tail(Returned(Ok([m1, m2, m3])), 2)
  {
    var incoming := [Datagram(d1), Datagram(d2)];
    assert d1[0..] == d1 && d2[0..] == d2;
    assert WalkDatagram(codec, d1, m1.header.length, [m1]) == Next([m1, m2]);
    assert WalkDatagram(codec, d1, 0, []) == Next([m1, m2]);
    assert [m1, m2] + [m3] == [m1, m2, m3];
    assert WalkDatagram(codec, d2, m3.header.length, [m1, m2, m3]) == Stop(Returned(Ok([m1, m2, m3])));
    assert WalkDatagram(codec, d2, 0, [m1, m2]) == Stop(Returned(Ok([m1, m2, m3])));
  }

  /** A datagram holding only an Error message fails the exchange with that
      error; nothing collected is returned. */
  lemma ErrorOnlyExchange<I>(codec: Codec<I>, d: seq<byte>, e: NetlinkMessage<I>, later: seq<Incoming>)
    requires e.payload.Error? && codec.deserialize(d) == Some(e)
    ensures Receive(codec, [Datagram(d)] + later, 0, []) == Tail(Returned(Err(Kernel(e.payload.code))), 1)
  {
    assert d[0..] == d;
    assert ([Datagram(d)] + later)[0] == Datagram(d);
  }

  // ---------------------------------------------------------------------
  // Generic netlink

  datatype CtrlCmd = GetFamily | OtherCtrlCmd(cmd: u8)

  datatype CtrlAttr = FamilyId(id: u16) | FamilyName(name: string) | OtherCtrlAttr(kind: u16)

  /** Payload of the generic-netlink controller family. */
  datatype GenlCtrl = GenlCtrl(cmd: CtrlCmd, nlas: seq<CtrlAttr>)

  /** A generic-netlink message; `familyId` is what `family_id()` reports,
      0 while unresolved. */
  datatype GenlMessage<F> = GenlMessage(payload: F, familyId: u16)

  /** The lookup request: GetFamily carrying only the family's name. */
  function LookupMessage(familyName: string): (m: GenlMessage<GenlCtrl>)
    ensures m.familyId == GENL_ID_CTRL && m.payload.cmd == GetFamily
    ensures m.payload.nlas == [FamilyName(familyName)]
    ensures FirstFamilyId(m.payload.nlas) == None
  {
    GenlMessage(GenlCtrl(GetFamily, [FamilyName(familyName)]), GENL_ID_CTRL)
  }

  /** The first `FamilyId` attribute, as `find_map` finds it. */
  function FirstFamilyId(nlas: seq<CtrlAttr>): (r: Option<u16>)
    ensures r.None? <==> forall j :: 0 <= j < |nlas| ==> !nlas[j].FamilyId?
    ensures r.Some? ==> exists j :: 0 <= j < |nlas| && nlas[j] == FamilyId(r.value) &&
                                    forall i :: 0 <= i < j ==> !nlas[i].FamilyId?
  {
    if nlas == [] then None
    else if nlas[0].FamilyId? then Some(nlas[0].id)
    else
      var r := FirstFamilyId(nlas[1..]);
      assert r.Some? ==> exists j :: 0 <= j < |nlas| - 1 && nlas[1..][j] == FamilyId(r.value) &&
                                     forall i :: 0 <= i < j ==> !nlas[1..][i].FamilyId?;
      r
  }

  /** The family id carried by the lookup's responses. */
  function ResolveFamilyId(responses: seq<NetlinkMessage<GenlMessage<GenlCtrl>>>): (r: IoResult<u16>)
    ensures r == Err(InvalidData) <==> |responses| == 0 || !responses[0].payload.InnerMessage?
    ensures r == Err(NotFound) <==>
              |responses| > 0 && responses[0].payload.InnerMessage? &&
              forall j :: 0 <= j < |responses[0].payload.inner.payload.nlas| ==>
                            !responses[0].payload.inner.payload.nlas[j].FamilyId?
    ensures r.Ok? ==> |responses| > 0 && responses[0].payload.InnerMessage? &&
                      FamilyId(r.value) in responses[0].payload.inner.payload.nlas
    ensures r.Ok? ==> FirstFamilyId(responses[0].payload.inner.payload.nlas) == Some(r.value)
  {
    if |responses| == 0 || !responses[0].payload.InnerMessage? then Err(InvalidData)
    else
      match FirstFamilyId(responses[0].payload.inner.payload.nlas)
      case None => Err(NotFound)
      case Some(id) => Ok(id)
  }

  /** Both exchanges of `netlink_request_genl`: the family lookup (None if
      none was sent) and the real request (None if it was never made). */
  datatype GenlExchange<F> = GenlExchange(
    lookup: Option<Exchange<GenlMessage<GenlCtrl>>>,
    request: Option<Exchange<GenlMessage<F>>>,
    outcome: Outcome<seq<NetlinkMessage<GenlMessage<F>>>>)

  /** `netlink_request_genl`: resolve the family id when it is 0, then send
      the message with the caller's flags. */
  function RequestGenl<F>(message: GenlMessage<F>, flags: Option<bv16>, familyName: string,
                          ctrlCodec: Codec<GenlMessage<GenlCtrl>>, codec: Codec<GenlMessage<F>>,
                          lookupSock: Socket, sock: Socket): (r: GenlExchange<F>)
    ensures r.lookup.Some? <==> message.familyId == 0
    ensures r.lookup.Some? ==>
              r.lookup.value == Request(LookupMessage(familyName), Some(NLM_F_REQUEST | NLM_F_ACK),
                                        NETLINK_GENERIC, ctrlCodec, lookupSock)
    ensures r.lookup.Some? ==> r.lookup.value.protocol.Some? ==> r.lookup.value.protocol.value == NETLINK_GENERIC
    ensures r.lookup.Some? && r.lookup.value.sent.Some? ==>
              r.lookup.value.sent.value.header.flags == NLM_F_REQUEST | NLM_F_ACK &&
              r.lookup.value.sent.value.payload ==
                InnerMessage(GenlMessage(GenlCtrl(GetFamily, [FamilyName(familyName)]), GENL_ID_CTRL))
    ensures r.request.None? ==> message.familyId == 0 && Failed(r.outcome)
    ensures r.request.Some? ==> r.outcome == r.request.value.outcome
    ensures r.request.Some? && message.familyId != 0 ==>
              r.request.value == Request(message, flags, NETLINK_GENERIC, codec, sock)
    ensures r.request.Some? && message.familyId == 0 ==>
              r.lookup.value.outcome.Returned? && r.lookup.value.outcome.result.Ok? &&
              var id := ResolveFamilyId(r.lookup.value.outcome.result.value);
              id.Ok? && r.request.value == Request(message.(familyId := id.value), flags, NETLINK_GENERIC, codec, sock)
  {
    if message.familyId == 0 then
      var lookup := Request(LookupMessage(familyName), Some(NLM_F_REQUEST | NLM_F_ACK), NETLINK_GENERIC, ctrlCodec, lookupSock);
      match lookup.outcome
      case Returned(Ok(responses)) =>
        (match ResolveFamilyId(responses)
         case Ok(id) =>
           var ex := Request(message.(familyId := id), flags, NETLINK_GENERIC, codec, sock);
           GenlExchange(Some(lookup), Some(ex), ex.outcome)
         case Err(e) => GenlExchange(Some(lookup), None, Returned(Err(e))))
      case _ => GenlExchange(Some(lookup), None, Relabel(lookup.outcome))
    else
      var ex := Request(message, flags, NETLINK_GENERIC, codec, sock);
      GenlExchange(None, Some(ex), ex.outcome)
  }

  /** Why the real request of an unresolved message is never made: the
      lookup failed, and its failure is passed on; or its responses do not
      resolve, InvalidData when the first is missing or not an inner message,
      NotFound when it has no FamilyId. */
  lemma GenlResolutionFailure<F>(message: GenlMessage<F>, flags: Option<bv16>, familyName: string,
                                 ctrlCodec: Codec<GenlMessage<GenlCtrl>>, codec: Codec<GenlMessage<F>>,
                                 lookupSock: Socket, sock: Socket)
    requires message.familyId == 0
    ensures var r := RequestGenl(message, flags, familyName, ctrlCodec, codec, lookupSock, sock);
            var lo := r.lookup.value.outcome;
            (Failed(lo) ==> r.request.None? && r.outcome == Relabel(lo)) &&
            (!Failed(lo) ==> (r.request.None? <==> ResolveFamilyId(lo.result.value).Err?)) &&
            (!Failed(lo) && r.request.None? ==> r.outcome == Returned(Err(ResolveFamilyId(lo.result.value).error)))
  {
  }
}
