/** Parameter checks on rules (processing/dpdk_pipeline/thread.c:1017-1154). */
module Checks {
  import opened Prelude
  import opened Rules
  import opened MatchConvert

  datatype EncapType = TEther | TVlan | TQinQ | TQinQPppoe | TMpls | TPppoe

  function TypeOf(e: Encap): EncapType {
    match e
    case Ether(_, _) => TEther
    case Vlan(_, _, _) => TVlan
    case QinQ(_, _, _, _) => TQinQ
    case QinQPppoe(_, _, _, _, _) => TQinQPppoe
    case MplsHdr(_, _, _, _) => TMpls
    case Pppoe(_, _, _) => TPppoe
  }

  /** The parts of `struct table_action_profile` that `action_check` reads. */
  datatype Profile = Profile(mask: set<Section>, nTc: nat, nSubports: nat, nPipes: nat,
                             encapMask: set<EncapType>, ipVersion: int)

  /** The table sizes that `pipeline_table_create` accepts. */
  predicate Creatable(p: MatchParams) {
    match p
    case PHash(keyMask) => |keyMask| % 8 == 0 && 8 <= |keyMask| <= 64
    case PLpm(size) => size == 4 || size == 16
    case _ => true
  }

  /** Eight key sizes of a hash table and two of an LPM table. */
  lemma KeySizes(keyMask: seq<u8>, size: nat)
    ensures Creatable(PHash(keyMask)) <==> |keyMask| in {8, 16, 24, 32, 40, 48, 56, 64}
    ensures Creatable(PLpm(size)) <==> size in {4, 16}
    ensures Creatable(PArray) && Creatable(PStub) && Creatable(PAcl(0)) && Creatable(PAcl(1))
  {
  }

  /** `match_check` succeeds. */
  predicate MatchOk(m: Match, p: MatchParams) {
    match (m, p)
    case (MAcl(addr, saDepth, daDepth, _, _, _, _, _, _, _), PAcl(v)) =>
      && (addr.AclV4? <==> v != 0)
      && (if addr.AclV4? then saDepth <= 32 && daDepth <= 32 else saDepth <= 128 && daDepth <= 128)
    case (MArray(_), PArray) => true
    case (MHash(_), PHash(_)) => true
    case (MLpm(lpm, depth), PLpm(size)) =>
      if lpm.LpmV4? then size == 4 && depth <= 32 else size == 16 && depth <= 128
    case _ => false
  }

  predicate FwdOk(fwd: Fwd, nPortsOut: nat, nTables: nat) {
    && (fwd.Port? ==> fwd.id < nPortsOut)
    && (fwd.ToTable? ==> fwd.id < nTables)
  }

  /** `action_check` succeeds. */
  predicate ActionOk(act: Action, ap: Profile, nPortsOut: nat, nTables: nat) {
    && act.mask == ap.mask
    && (SFwd in act.mask ==> FwdOk(act.fwd, nPortsOut, nTables))
    && (SMtr in act.mask ==> act.mtr.tcMask == Pow2(ap.nTc) - 1)
    && (STm in act.mask ==> act.tm.subport < ap.nSubports && act.tm.pipe < ap.nPipes)
    && (SEncap in act.mask ==> TypeOf(act.encap) in ap.encapMask)
    && (SNat in act.mask ==> (act.nat_.Nat4? <==> ap.ipVersion != 0))
  }

  /** `action_default_check` succeeds. */
  predicate DefaultActionOk(act: Action, nPortsOut: nat, nTables: nat) {
    act.mask == {SFwd} && FwdOk(act.fwd, nPortsOut, nTables)
  }

  /** What passes the check always converts, for an add and for a delete alike. */
  lemma CheckedConverts(m: Match, p: MatchParams)
    requires MatchOk(m, p)
    ensures DepthsOk(m) && Convert(m, true).Some? && Convert(m, false).Some? && KeyOf(p, m).Some?
  {
  }
}
