/**
 * The match-action rules that the command line, the control plane and the data plane exchange
 * (processing/dpdk_pipeline/pipeline.h). A C union whose unused bytes are zero is a datatype here,
 * so that `memcmp` on the C structures is equality of the values.
 */
module Rules {
  import opened Prelude

  type Ip6 = s: seq<u8> | |s| == 16 witness seq(16, _ => 0 as u8)
  type Mac = s: seq<u8> | |s| == 6 witness seq(6, _ => 0 as u8)

  const MATCH_SIZE_MAX := 256
  type HashBytes = s: seq<u8> | |s| == MATCH_SIZE_MAX witness seq(MATCH_SIZE_MAX, _ => 0 as u8)

  datatype AclAddr = AclV4(sa: u32, da: u32) | AclV6(sa6: Ip6, da6: Ip6)
  datatype LpmAddr = LpmV4(ip: u32) | LpmV6(ip6: Ip6)

  datatype Match =
    | MAcl(addr: AclAddr, saDepth: u32, daDepth: u32, sp0: u16, sp1: u16, dp0: u16, dp1: u16,
           proto: u8, protoMask: u8, priority: u32)
    | MArray(pos: u32)
    | MHash(key: HashBytes)
    | MLpm(lpm: LpmAddr, depth: u8)

  /**
   * `struct table_params`, as far as rules are concerned. A hash table is created with a key size and a
   * mask of that size (cli.c:2127-2146); the size is the length of the mask.
   */
  datatype MatchParams = PAcl(ipVersion: int) | PArray | PHash(keyMask: seq<u8>) | PLpm(lpmKeySize: nat) | PStub

  /** One bit of `action_mask`, in the order in which sections are parsed, printed and applied. */
  datatype Section = SFwd | SLb | SMtr | STm | SEncap | SNat | STtl | SStats | STime | STag | SDecap

  const SECTIONS: seq<Section> :=
    [SFwd, SLb, SMtr, STm, SEncap, SNat, STtl, SStats, STime, STag, SDecap]

  datatype Fwd = Drop | Port(id: u32) | PortMeta | ToTable(id: u32)

  const LB_TABLE_SIZE := 8
  type LbTable = s: seq<u32> | |s| == LB_TABLE_SIZE witness seq(LB_TABLE_SIZE, _ => 0 as u32)

  datatype Policer = Green | Yellow | Red | PolicerDrop
  datatype MtrTc = MtrTc(profile: u32, g: Policer, y: Policer, r: Policer)
  type MtrTcs = s: seq<MtrTc> | |s| == 4 witness seq(4, _ => MtrTc(0, Green, Green, Green))
  datatype Mtr = Mtr(tcs: MtrTcs, tcMask: nat)

  datatype Tm = Tm(subport: u32, pipe: u32)

  datatype Tag1Q = Tag1Q(pcp: u32, dei: u32, vid: u32)
  datatype Mpls = Mpls(value: u32, tc: u32, ttl: u32)
  type Labels = s: seq<Mpls> | |s| <= 4

  /** `encap`: the constructor is `encap.type`, the arguments are the live member of the union. */
  datatype Encap =
    | Ether(da: Mac, sa: Mac)
    | Vlan(da: Mac, sa: Mac, vlan: Tag1Q)
    | QinQ(da: Mac, sa: Mac, svlan: Tag1Q, cvlan: Tag1Q)
    | QinQPppoe(da: Mac, sa: Mac, svlan: Tag1Q, cvlan: Tag1Q, session: u16)
    | MplsHdr(unicast: bool, da: Mac, sa: Mac, labels: Labels)
    | Pppoe(da: Mac, sa: Mac, session: u16)

  datatype Nat = Nat6(addr6: Ip6, port: u16) | Nat4(addr: u32, port: u16)

  datatype Action = Action(
    mask: set<Section>, fwd: Fwd, lb: LbTable, mtr: Mtr, tm: Tm, encap: Encap, nat_: Nat,
    decTtl: bool, time: nat, tag: u32, decap: u16)

  function Zeros(n: nat): (s: seq<u8>)
    ensures |s| == n && forall i :: 0 <= i < n ==> s[i] == 0
  {
    if n == 0 then [] else Zeros(n - 1) + [0]
  }

  /** A key of zeros but for `b7` at byte 7 and `b9` at byte 9. */
  function ShortKey(b7: u8, b9: u8): HashBytes { Zeros(MATCH_SIZE_MAX)[7 := b7][9 := b9] }

  const ZERO_MAC: Mac := [0, 0, 0, 0, 0, 0]
  const ZERO_IP6: Ip6 := Zeros(16)
  const ZERO_LB: LbTable := [0, 0, 0, 0, 0, 0, 0, 0]
  const ZERO_TC := MtrTc(0, Green, Green, Green)
  const ZERO_MTR := Mtr([ZERO_TC, ZERO_TC, ZERO_TC, ZERO_TC], 0)

  /** What `memset(a, 0, sizeof(*a))` leaves. */
  const ZERO_ACTION := Action({}, Drop, ZERO_LB, ZERO_MTR, Tm(0, 0), Ether(ZERO_MAC, ZERO_MAC),
                              Nat6(ZERO_IP6, 0), false, 0, 0, 0)

  type Handle = nat

  /** An element of the shadow list; `data` is the entry handle that the low-level table returned. */
  datatype Rule = Rule(m: Match, act: Action, data: Handle)
}
