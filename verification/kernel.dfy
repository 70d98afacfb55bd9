/**
 * `get_listen_port`: ask the kernel's WireGuard generic-netlink family for
 * a device and pick its listen port out of the dumped attributes.
 */
module WireguardKernel {
  import opened Primitives
  import opened NetlinkRequest
  import WireguardControl

  /** Name of the WireGuard generic-netlink family. */
  const WG_GENL_NAME: string := "wireguard"

  /** Flags of the device query. */
  const DUMP_FLAGS: bv16 := NLM_F_REQUEST | NLM_F_DUMP | NLM_F_ACK

  datatype WireguardCmd = GetDevice | SetDevice

  /** Device attributes; the ones this query does not read keep their raw
      bytes. */
  datatype DeviceAttr =
    | IfIndex(index: u32)
    | IfName(name: seq<byte>)
    | PrivateKey(privateKey: seq<byte>)
    | PublicKey(publicKey: seq<byte>)
    | ListenPort(port: u16)
    | Fwmark(mark: u32)
    | Peers(peers: seq<byte>)
    | DeviceFlags(flags: u32)

  datatype Wireguard = Wireguard(cmd: WireguardCmd, nlas: seq<DeviceAttr>)

  type WgResponse = NetlinkMessage<GenlMessage<Wireguard>>

  /** The GetDevice request for `name`, family id not yet resolved. */
  function DeviceQuery(name: WireguardControl.InterfaceName): (m: GenlMessage<Wireguard>)
    ensures m.familyId == 0
    ensures m.payload.cmd == GetDevice && |m.payload.nlas| == 1 && m.payload.nlas[0].IfName?
    ensures var n := m.payload.nlas[0].name;
            |n| < WireguardControl.IFNAMSIZ && n == name.raw[..|n|] && name.raw[|n|] == 0 &&
            forall i :: 0 <= i < |n| ==> n[i] != 0
  {
    GenlMessage(Wireguard(GetDevice, [IfName(WireguardControl.AsStrLossy(name))]), 0)
  }

  /** One step of the fold: an error stays; an inner message appends its
      attributes; anything else is InvalidData. */
  function AppendAttrs(acc: IoResult<seq<DeviceAttr>>, m: WgResponse): (r: IoResult<seq<DeviceAttr>>)
    ensures acc.Err? ==> r == acc
    ensures acc.Ok? ==> (r.Ok? <==> m.payload.InnerMessage?) && (r.Err? ==> r.error == InvalidData)
    ensures r.Ok? ==> |r.value| == |acc.value| + |m.payload.inner.payload.nlas| &&
                      r.value[..|acc.value|] == acc.value &&
                      r.value[|acc.value|..] == m.payload.inner.payload.nlas
  {
    match acc
    case Err(e) => Err(e)
    case Ok(nlas) =>
      if m.payload.InnerMessage? then Ok(nlas + m.payload.inner.payload.nlas) else Err(InvalidData)
  }

  /** `responses.into_iter().fold(acc, ..)`. */
  function FoldAttrs(acc: IoResult<seq<DeviceAttr>>, responses: seq<WgResponse>): (r: IoResult<seq<DeviceAttr>>)
    ensures acc.Err? ==> r == acc
    ensures acc.Ok? && r.Err? ==> r.error == InvalidData
    ensures r.Ok? ==> acc.Ok? && |acc.value| <= |r.value| && r.value[..|acc.value|] == acc.value
    decreases |responses|
  {
    if responses == [] then acc
    else
      var next := AppendAttrs(acc, responses[0]);
      var r := FoldAttrs(next, responses[1..]);
      assert r.Ok? ==> r.value[..|acc.value|] == r.value[..|next.value|][..|acc.value|];
      r
  }

  predicate AllInner(responses: seq<WgResponse>) {
    forall j :: 0 <= j < |responses| ==> responses[j].payload.InnerMessage?
  }

  /** Reference: each response's attributes in their own order, responses
      in arrival order. */
  function ConcatAttrs(responses: seq<WgResponse>): seq<DeviceAttr>
    requires AllInner(responses)
  {
    if responses == [] then [] else responses[0].payload.inner.payload.nlas + ConcatAttrs(responses[1..])
  }

  /** The fold concatenates every response's attributes when all are inner
      messages, and fails with InvalidData as soon as one is not. */
  lemma {:induction false} FoldAttrsConcatenates(acc: seq<DeviceAttr>, responses: seq<WgResponse>)
    ensures FoldAttrs(Ok(acc), responses) ==
            if AllInner(responses) then Ok(acc + ConcatAttrs(responses)) else Err(InvalidData)
    decreases |responses|
  {
    if responses == [] {
      assert acc + [] == acc;
    } else {
      var m := responses[0];
      var rest := responses[1..];
      assert AllInner(responses) <==> m.payload.InnerMessage? && AllInner(rest) by {
        if m.payload.InnerMessage? && AllInner(rest) {
          forall j | 0 <= j < |responses| ensures responses[j].payload.InnerMessage? {
            if j > 0 { assert responses[j] == rest[j - 1]; }
          }
        }
        if AllInner(responses) {
          forall j | 0 <= j < |rest| ensures rest[j].payload.InnerMessage? {
            assert rest[j] == responses[j + 1];
          }
        }
      }
      if m.payload.InnerMessage? {
        FoldAttrsConcatenates(acc + m.payload.inner.payload.nlas, rest);
        if AllInner(rest) {
          assert acc + m.payload.inner.payload.nlas + ConcatAttrs(rest) == acc + ConcatAttrs(responses);
        }
      }
    }
  }

  /** The attribute list of all responses, or InvalidData. */
  function CollectAttrs(responses: seq<WgResponse>): (r: IoResult<seq<DeviceAttr>>)
    ensures r == if AllInner(responses) then Ok(ConcatAttrs(responses)) else Err(InvalidData)
  {
    FoldAttrsConcatenates([], responses);
    assert AllInner(responses) ==> [] + ConcatAttrs(responses) == ConcatAttrs(responses);
    FoldAttrs(Ok([]), responses)
  }

  /** The value of the first `ListenPort` attribute, as `find_map` finds it. */
  function FirstListenPort(nlas: seq<DeviceAttr>): (r: Option<u16>)
    ensures r.None? <==> forall j :: 0 <= j < |nlas| ==> !nlas[j].ListenPort?
    ensures r.Some? ==> exists j :: 0 <= j < |nlas| && nlas[j] == ListenPort(r.value) &&
                                    forall i :: 0 <= i < j ==> !nlas[i].ListenPort?
  {
    if nlas == [] then None
    else if nlas[0].ListenPort? then Some(nlas[0].port)
    else
      var r := FirstListenPort(nlas[1..]);
      assert r.Some? ==> exists j :: 0 <= j < |nlas| - 1 && nlas[1..][j] == ListenPort(r.value) &&
                                     forall i :: 0 <= i < j ==> !nlas[1..][i].ListenPort?;
      r
  }

  /** The listen port in a list of responses. */
  function PortOf(responses: seq<WgResponse>): (r: IoResult<u16>)
    ensures r.Ok? <==> AllInner(responses) && FirstListenPort(ConcatAttrs(responses)).Some?
    ensures r.Ok? ==> r.value == FirstListenPort(ConcatAttrs(responses)).value
    ensures r.Err? ==> r.error == InvalidData
  {
    match CollectAttrs(responses)
    case Err(e) => Err(e)
    case Ok(nlas) =>
      match FirstListenPort(nlas)
      case None => Err(InvalidData)
      case Some(port) => Ok(port)
  }

  /** Both exchanges made, and the port found. */
  datatype ListenPortQuery = ListenPortQuery(exchange: GenlExchange<Wireguard>, port: Outcome<u16>)

  /** `get_listen_port`. */
  function GetListenPort(name: WireguardControl.InterfaceName,
                         ctrlCodec: Codec<GenlMessage<GenlCtrl>>, codec: Codec<GenlMessage<Wireguard>>,
                         lookupSock: Socket, sock: Socket): (r: ListenPortQuery)
    ensures r.exchange == RequestGenl(DeviceQuery(name), Some(DUMP_FLAGS), WG_GENL_NAME, ctrlCodec, codec, lookupSock, sock)
    ensures r.exchange.lookup.Some?
    ensures r.exchange.lookup.value.sent.Some? ==>
              r.exchange.lookup.value.sent.value.payload == InnerMessage(LookupMessage(WG_GENL_NAME))
    ensures r.exchange.request.Some? && r.exchange.request.value.sent.Some? ==>
              var sent := r.exchange.request.value.sent.value;
              && sent.header.flags == DUMP_FLAGS
              && sent.payload.InnerMessage?
              && sent.payload.inner.payload == Wireguard(GetDevice, [IfName(WireguardControl.AsStrLossy(name))])
    ensures Failed(r.exchange.outcome) ==> r.port == Relabel(r.exchange.outcome)
    ensures !Failed(r.exchange.outcome) ==> r.port == Returned(PortOf(r.exchange.outcome.result.value))
  {
    var ex := RequestGenl(DeviceQuery(name), Some(DUMP_FLAGS), WG_GENL_NAME, ctrlCodec, codec, lookupSock, sock);
    match ex.outcome
    case Returned(Ok(responses)) => ListenPortQuery(ex, Returned(PortOf(responses)))
    case _ => ListenPortQuery(ex, Relabel(ex.outcome))
  }

  /** A dump split over two messages, the first with the interface name and
      listen port 51820, the second with the public key, yields 51820. */
  lemma SplitDumpListenPort(m1: WgResponse, m2: WgResponse, ifname: seq<byte>, key: seq<byte>)
    requires m1.payload.InnerMessage? && m1.payload.inner.payload.nlas == [IfName(ifname), ListenPort(51820)]
    requires m2.payload.InnerMessage? && m2.payload.inner.payload.nlas == [PublicKey(key)]
    ensures PortOf([m1, m2]) == Ok(51820)
  {
    var rs := [m1, m2];
    assert AllInner(rs) by {
      forall j | 0 <= j < 2 ensures rs[j].payload.InnerMessage? {}
    }
    assert rs[1..] == [m2] && [m2][1..] == [];
    assert AllInner([m2]) && AllInner([]);
    assert ConcatAttrs([m2]) == [PublicKey(key)];
    assert ConcatAttrs(rs) == [IfName(ifname), ListenPort(51820), PublicKey(key)];
    assert FirstListenPort([ListenPort(51820), PublicKey(key)]) == Some(51820);
  }
}
