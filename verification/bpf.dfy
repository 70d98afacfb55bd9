/**
 * The classic-BPF program the client attaches to its raw socket, and an
 * interpreter for the part of classic BPF the program uses (absolute word
 * and half-word loads, JEQ with a constant, RET with a constant), following
 * the Linux kernel's semantics: an out-of-bounds load ends the run with 0.
 */
module BpfFilter {
  import opened Primitives

  // Opcode parts
  const BPF_LD: u16 := 0x00
  const BPF_K: u16 := 0x00
  const BPF_H: u16 := 0x08
  const BPF_JEQ: u16 := 0x10
  const BPF_JMP: u16 := 0x05
  const BPF_RET: u16 := 0x06
  const BPF_ABS: u16 := 0x20
  const BPF_W: u16 := 0x00

  const LD_W_ABS: u16 := BPF_LD + BPF_W + BPF_ABS
  const LD_H_ABS: u16 := BPF_LD + BPF_ABS + BPF_H
  const JEQ_K: u16 := BPF_JMP + BPF_JEQ + BPF_K
  const RET_K: u16 := BPF_RET + BPF_K

  /** Index of the reject instruction in the program. */
  const REJECT_INDEX: nat := 7

  /** `struct sock_filter`. */
  datatype SockFilter = SockFilter(code: u16, jt: u8, jf: u8, k: u32)

  /** An IPv4 address as its four octets, most significant first. */
  type Ipv4Addr = o: seq<byte> | |o| == 4 witness [0, 0, 0, 0]

  datatype SocketAddrV4 = SocketAddrV4(ip: Ipv4Addr, port: u16)

  /** `bpf_stmt`: an instruction that never jumps. */
  function BpfStmt(code: u16, k: u32): (f: SockFilter)
    ensures f.jt == 0 && f.jf == 0
    ensures f.code == code && f.k == k
  {
    SockFilter(code, 0, 0, k)
  }

  /** `bpf_jump`: a conditional jump with both offsets as given. */
  function BpfJump(code: u16, k: u32, jt: u8, jf: u8): (f: SockFilter)
    ensures f.code == code && f.k == k
    ensures f.jt == jt && f.jf == jf
  {
    SockFilter(code, jt, jf, k)
  }

  /** The big-endian 32-bit word at `off`. */
  function LoadWord(pkt: seq<byte>, off: nat): u32
    requires off + 4 <= |pkt|
  {
    ((pkt[off] as int * 0x100 + pkt[off + 1]) * 0x100 + pkt[off + 2]) * 0x100 + pkt[off + 3]
  }

  /** The big-endian 16-bit half-word at `off`. */
  function LoadHalf(pkt: seq<byte>, off: nat): u16
    requires off + 2 <= |pkt|
  {
    pkt[off] as int * 0x100 + pkt[off + 1]
  }

  /** `u32::from(Ipv4Addr)`: the octets read as a big-endian word. */
  function Ipv4ToU32(ip: Ipv4Addr): (w: u32)
    ensures w == ip[0] as int * 0x100_0000 + ip[1] as int * 0x1_0000 + ip[2] as int * 0x100 + ip[3]
  {
    LoadWord(ip, 0)
  }

  /** A number splits uniquely into its high part and its low byte. */
  lemma SplitByte(h1: int, l1: byte, h2: int, l2: byte)
    requires h1 * 0x100 + l1 == h2 * 0x100 + l2
    ensures h1 == h2 && l1 == l2
  {
  }

  /** Two big-endian words are equal exactly when their bytes are. */
  lemma {:induction false} LoadWordInjective(a: seq<byte>, i: nat, b: seq<byte>, j: nat)
    requires i + 4 <= |a| && j + 4 <= |b|
    ensures LoadWord(a, i) == LoadWord(b, j) <==> a[i..i + 4] == b[j..j + 4]
  {
    assert a[i..i + 4] == [a[i], a[i + 1], a[i + 2], a[i + 3]];
    assert b[j..j + 4] == [b[j], b[j + 1], b[j + 2], b[j + 3]];
    if LoadWord(a, i) == LoadWord(b, j) {
      var x1 := a[i] as int * 0x100 + a[i + 1];
      var y1 := b[j] as int * 0x100 + b[j + 1];
      var x2 := x1 * 0x100 + a[i + 2];
      var y2 := y1 * 0x100 + b[j + 2];
      SplitByte(x2, a[i + 3], y2, b[j + 3]);
      SplitByte(x1, a[i + 2], y1, b[j + 2]);
      SplitByte(a[i], a[i + 1], b[j], b[j + 1]);
    }
  }

  /** The array built in `apply_bpf`: admit a raw IPv4/UDP datagram only if
      its source address, source port and destination port are the peer's
      address, the peer's port and the local listen port. */
  function FilterProgram(listenPort: u16, server: SocketAddrV4): (p: seq<SockFilter>)
    ensures |p| == 8
    ensures p[0].code == LD_W_ABS && p[0].k == 12
    ensures p[2].code == LD_H_ABS && p[2].k == 20
    ensures p[4].code == LD_H_ABS && p[4].k == 22
    ensures p[1].code == JEQ_K && p[1].k == Ipv4ToU32(server.ip)
    ensures p[3].code == JEQ_K && p[3].k == server.port
    ensures p[5].code == JEQ_K && p[5].k == listenPort
    ensures p[6] == SockFilter(RET_K, 0, 0, U32_MAX)
    ensures p[REJECT_INDEX] == SockFilter(RET_K, 0, 0, 0)
    ensures forall i :: 0 <= i < |p| && p[i].code == JEQ_K ==> p[i].jt == 0 && i + 1 + p[i].jf == REJECT_INDEX
    ensures forall i :: 0 <= i < |p| && p[i].code != JEQ_K ==> p[i].jt == 0 && p[i].jf == 0
  {
    [
      // source address from the IP header
      BpfStmt(LD_W_ABS, 12),
      BpfJump(JEQ_K, Ipv4ToU32(server.ip), 0, 5),
      // source port from the UDP header
      BpfStmt(LD_H_ABS, 20),
      BpfJump(JEQ_K, server.port, 0, 3),
      // destination port from the UDP header
      BpfStmt(LD_H_ABS, 22),
      BpfJump(JEQ_K, listenPort, 0, 1),
      BpfStmt(RET_K, U32_MAX),
      BpfStmt(RET_K, 0)
    ]
  }

  /** Only the three comparison operands depend on the inputs. */
  lemma OnlyOperandsVary(l1: u16, s1: SocketAddrV4, l2: u16, s2: SocketAddrV4)
    ensures var p1, p2 := FilterProgram(l1, s1), FilterProgram(l2, s2);
            forall i :: 0 <= i < 8 ==>
              p1[i].code == p2[i].code && p1[i].jt == p2[i].jt && p1[i].jf == p2[i].jf &&
              (i != 1 && i != 3 && i != 5 ==> p1[i] == p2[i])
  {
  }

  /** A run of the interpreter: the value returned (None: fell off the end
      or met an instruction outside the modelled subset) and the number of
      instructions executed. */
  datatype Run = Run(ret: Option<u32>, steps: nat)

  function After(r: Run): Run {
    Run(r.ret, r.steps + 1)
  }

  /** Classic BPF from instruction `pc` with accumulator `a`. Jumps only go
      forward, so a run executes at most one instruction per position. */
  function Exec(prog: seq<SockFilter>, pkt: seq<byte>, pc: nat, a: u32): (r: Run)
    ensures pc < |prog| ==> 1 <= r.steps <= |prog| - pc
    ensures pc >= |prog| ==> r == Run(None, 0)
    decreases |prog| - pc
  {
    if pc >= |prog| then Run(None, 0)
    else
      var ins := prog[pc];
      if ins.code == LD_W_ABS then
        if ins.k + 4 <= |pkt| then After(Exec(prog, pkt, pc + 1, LoadWord(pkt, ins.k)))
        else Run(Some(0), 1)
      else if ins.code == LD_H_ABS then
        if ins.k + 2 <= |pkt| then After(Exec(prog, pkt, pc + 1, LoadHalf(pkt, ins.k)))
        else Run(Some(0), 1)
      else if ins.code == JEQ_K then
        After(Exec(prog, pkt, pc + 1 + (if a == ins.k then ins.jt else ins.jf), a))
      else if ins.code == RET_K then Run(Some(ins.k), 1)
      else Run(None, 1)
  }

  /** The packet carries the peer's source address and port and the local
      listen port as destination (IPv4 header without options). */
  predicate Matches(listenPort: u16, server: SocketAddrV4, pkt: seq<byte>) {
    && |pkt| >= 24
    && pkt[12..16] == server.ip
    && LoadHalf(pkt, 20) == server.port
    && LoadHalf(pkt, 22) == listenPort
  }

  /** The program accepts the whole packet (u32::MAX) exactly when it
      matches, returns 0 otherwise, and never runs more than 8 steps. */
  lemma {:induction false} FilterAcceptsExactlyMatches(listenPort: u16, server: SocketAddrV4, pkt: seq<byte>)
    ensures var r := Exec(FilterProgram(listenPort, server), pkt, 0, 0);
            r.ret == Some(if Matches(listenPort, server, pkt) then U32_MAX else 0) && r.steps <= 8
  {
    var p := FilterProgram(listenPort, server);
    var accept := Run(Some(U32_MAX), 1);
    var reject := Run(Some(0), 1);
    if |pkt| < 16 {
      assert Exec(p, pkt, 0, 0) == reject;
    } else {
      var w := LoadWord(pkt, 12);
      LoadWordInjective(pkt, 12, server.ip, 0);
      assert Exec(p, pkt, 0, 0) == After(Exec(p, pkt, 1, w));
      assert Exec(p, pkt, 7, w) == reject;
      if w != Ipv4ToU32(server.ip) {
        assert Exec(p, pkt, 1, w) == After(reject);
      } else {
        assert Exec(p, pkt, 1, w) == After(Exec(p, pkt, 2, w));
        if |pkt| < 22 {
          assert Exec(p, pkt, 2, w) == reject;
        } else {
          var sp := LoadHalf(pkt, 20);
          assert Exec(p, pkt, 2, w) == After(Exec(p, pkt, 3, sp));
          assert Exec(p, pkt, 7, sp) == reject;
          if sp != server.port {
            assert Exec(p, pkt, 3, sp) == After(reject);
          } else {
            assert Exec(p, pkt, 3, sp) == After(Exec(p, pkt, 4, sp));
            if |pkt| < 24 {
              assert Exec(p, pkt, 4, sp) == reject;
            } else {
              var dp := LoadHalf(pkt, 22);
              assert Exec(p, pkt, 4, sp) == After(Exec(p, pkt, 5, dp));
              assert Exec(p, pkt, 6, dp) == accept;
              assert Exec(p, pkt, 7, dp) == reject;
              assert Exec(p, pkt, 5, dp) == if dp == listenPort then After(accept) else After(reject);
            }
          }
        }
      }
    }
  }

  /** The program for peer 203.0.113.5:51820 and listen port 51821. */
  lemma ExampleProgram()
    ensures FilterProgram(51821, SocketAddrV4([203, 0, 113, 5], 51820)) == [
      SockFilter(0x20, 0, 0, 12),
      SockFilter(0x15, 0, 5, 0xCB00_7105),
      SockFilter(0x28, 0, 0, 20),
      SockFilter(0x15, 0, 3, 51820),
      SockFilter(0x28, 0, 0, 22),
      SockFilter(0x15, 0, 1, 51821),
      SockFilter(0x06, 0, 0, 0xFFFF_FFFF),
      SockFilter(0x06, 0, 0, 0)
    ]
  {
  }
}
