/** The eNB's view of the core: S1AP instances, each with a tree of MME descriptors and a tree of UEs. */
module EnbInstances {
  import opened Common
  import opened SearchTree

  datatype AssocState = DISCONNECTED | WAITING | CONNECTED | OVERLOAD
  datatype OverloadState = REJECT_MO_DATA | REJECT_ALL_SIGNALLING | ONLY_EMERGENCY_AND_MT | NO_OVERLOAD

  datatype ServedPlmn = ServedPlmn(mcc: uint16, mnc: uint16)
  datatype ServedGummei = ServedGummei(plmns: seq<ServedPlmn>, groupIds: seq<uint16>, codes: seq<uint8>)

  /** An MME descriptor; `assocId` is -1 until the SCTP association is up. */
  datatype Mme = Mme(
    cnxId: uint16, assocId: int, state: AssocState, overload: OverloadState, capacity: uint8,
    gummeis: seq<ServedGummei>, nextStream: nat, inStreams: uint16, outStreams: uint16)

  /** A freshly registered descriptor. The other fields are zero, and zero is REJECT_MO_DATA. */
  function NewMme(cnxId: uint16): Mme {
    Mme(cnxId, -1, WAITING, REJECT_MO_DATA, 0, [], 0, 0, 0)
  }

  datatype Ue = Ue(id: uint24, mmeCnxId: uint16, stream: nat)

  /** The parameters a repeated registration of the eNB has to repeat. */
  datatype EnbConfig = EnbConfig(
    enbId: uint32, cellType: nat, tac: uint16, mcc: uint16, mnc: uint16, mncDigitLength: uint8, defaultDrx: nat)

  datatype Instance = Instance(
    id: int, config: EnbConfig, mmes: Tree<Mme>, ues: Tree<Ue>, mmeNb: uint32, pendingNb: uint32, associatedNb: uint32)

  /** s1ap_eNB_compare_assoc_id: the probe's association id decides which key is compared. */
  function Compare(p1: Mme, p2: Mme): int {
    if p1.assocId == -1 then Sign(p1.cnxId, p2.cnxId) else Sign(p1.assocId, p2.assocId)
  }

  function Against(probe: Mme): Mme -> int {
    (m: Mme) => Compare(probe, m)
  }

  function Probe(assocId: int, cnxId: uint16): Mme {
    NewMme(cnxId).(assocId := assocId)
  }

  function Lookup(t: Tree<Mme>, assocId: int, cnxId: uint16): (p: Option<nat>)
    ensures p.Some? ==> p.value < |InOrder(t)|
  {
    FindPos(t, Against(Probe(assocId, cnxId)))
  }

  /** A hit carries the key that was compared. */
  lemma LookupSound(t: Tree<Mme>, assocId: int, cnxId: uint16)
    requires Lookup(t, assocId, cnxId).Some?
    ensures var m := InOrder(t)[Lookup(t, assocId, cnxId).value];
      if assocId == -1 then m.cnxId == cnxId else m.assocId == assocId
  {
    assert Compare(Probe(assocId, cnxId), InOrder(t)[Lookup(t, assocId, cnxId).value]) == 0;
  }

  /** The nodes are ordered by connection id but messages look them up by association id: such a
      lookup succeeds however the tree is balanced exactly when the association ids before the
      node are smaller and those after it larger. An unassociated node counts as -1. */
  lemma AssocLookupExactIff(s: seq<Mme>, i: nat, cnxId: uint16)
    requires i < |s| && s[i].assocId != -1
    ensures (forall t: Tree<Mme> :: InOrder(t) == s ==> Lookup(t, s[i].assocId, cnxId) == Some(i))
            <==> (forall j :: 0 <= j < i ==> s[j].assocId < s[i].assocId)
                 && (forall j :: i < j < |s| ==> s[j].assocId > s[i].assocId)
  {
    var cmp := Against(Probe(s[i].assocId, cnxId));
    ExactInEveryShape(s, cmp, i);
    assert forall j :: 0 <= j < |s| ==> cmp(s[j]) == Sign(s[i].assocId, s[j].assocId);
  }

  ghost predicate SortedByCnx(s: seq<Mme>) {
    forall i, j :: 0 <= i < j < |s| ==> s[i].cnxId < s[j].cnxId
  }

  /** Connection id lookups are exact on a tree sorted by connection id, whatever association ids
      have been written into its nodes. */
  lemma CnxLookupExact(t: Tree<Mme>, cnxId: uint16, p: nat)
    requires SortedByCnx(InOrder(t))
    ensures Lookup(t, -1, cnxId) == Some(p) <==> p < |InOrder(t)| && InOrder(t)[p].cnxId == cnxId
  {
    var s, cmp := InOrder(t), Against(Probe(-1, cnxId));
    assert forall j :: 0 <= j < |s| ==> cmp(s[j]) == Sign(cnxId, s[j].cnxId);
    if p < |s| && s[p].cnxId == cnxId {
      assert Ordered(s, cmp);
      OrderedFinds(t, cmp, p);
    } else if Lookup(t, -1, cnxId) == Some(p) {
      LookupSound(t, -1, cnxId);
    }
  }

  /** A descriptor with a connection id above all others is inserted last. */
  lemma NewestIsLast(t: Tree<Mme>, m: Mme)
    requires m.assocId == -1 && SortedByCnx(InOrder(t))
    requires forall j :: 0 <= j < |InOrder(t)| ==> InOrder(t)[j].cnxId < m.cnxId
    ensures InOrder(Insert(t, m, Against(m))) == InOrder(t) + [m]
  {
    var s, cmp := InOrder(t), Against(m);
    assert forall j :: 0 <= j < |s| ==> cmp(s[j]) == 1;
    OrderedInsertPos(t, cmp);
    InsertKeepsOrder(t, m, cmp);
  }
}
