/**
 The MME's table of UE contexts: one red-black tree searched under four different keys,
 whose nodes have key fields rewritten in place while they are in the tree.
 */
module UeContexts {
  import opened Common
  import opened SearchTree

  datatype Plmn = Plmn(mcc: uint16, mnc: uint16, mncLen: uint16)
  datatype Guti = Guti(mTmsi: uint32, mmeCode: uint8, mmeGid: uint16, plmn: Plmn)

  const NO_GUTI := Guti(0, 0, 0, Plmn(0, 0, 0))

  datatype UeContext = UeContext(imsi: nat, mmeS11Teid: uint32, mmeUeS1apId: uint32, ueId: uint32, guti: Guti)

  /** A zero-filled context. */
  const BLANK := UeContext(0, 0, 0, 0, NO_GUTI)

  /** The tree's comparator. The first non-zero field of the probe `p1` picks the key. The last
      branch reads both network identities from `p1`. */
  function Compare(p1: UeContext, p2: UeContext): int {
    if p1.imsi > 0 then Sign(p1.imsi, p2.imsi)
    else if p1.mmeS11Teid > 0 then Sign(p1.mmeS11Teid, p2.mmeS11Teid)
    else if p1.mmeUeS1apId > 0 then Sign(p1.mmeUeS1apId, p2.mmeUeS1apId)
    else if p1.ueId > 0 then Sign(p1.ueId, p2.ueId)
    else
      var (g1, g2) := (p1.guti, p2.guti);
      var (plmn1, plmn2) := (p1.guti.plmn, p1.guti.plmn);
      if && g1.mTmsi < g2.mTmsi && g1.mmeCode < g2.mmeCode && g1.mmeGid < g2.mmeGid
         && plmn1.mcc < plmn2.mcc && plmn1.mnc < plmn2.mnc && plmn1.mncLen < plmn2.mncLen then 1
      else if && g1.mTmsi > g2.mTmsi && g1.mmeCode > g2.mmeCode && g1.mmeGid > g2.mmeGid
              && plmn1.mcc > plmn2.mcc && plmn1.mnc > plmn2.mnc && plmn1.mncLen > plmn2.mncLen then -1
      else 0
  }

  function Against(probe: UeContext): UeContext -> int {
    (c: UeContext) => Compare(probe, c)
  }

  datatype Key = Imsi | S11Teid | S1apId | NasUeId

  function KeyOf(k: Key, c: UeContext): nat {
    match k
    case Imsi => c.imsi
    case S11Teid => c.mmeS11Teid
    case S1apId => c.mmeUeS1apId
    case NasUeId => c.ueId
  }

  /** IMSIs have up to 15 digits; the other three keys are 32-bit. */
  predicate IsKey(k: Key, v: nat) {
    k == Imsi || v < TWO_32
  }

  /** The reference context a lookup function builds on its stack: one field set, the rest zero. */
  function Reference(k: Key, v: nat): UeContext
    requires IsKey(k, v)
  {
    match k
    case Imsi => BLANK.(imsi := v)
    case S11Teid => BLANK.(mmeS11Teid := v)
    case S1apId => BLANK.(mmeUeS1apId := v)
    case NasUeId => BLANK.(ueId := v)
  }

  function Lookup(t: Tree<UeContext>, k: Key, v: nat): Option<nat>
    requires IsKey(k, v)
  {
    FindPos(t, Against(Reference(k, v)))
  }

  function LookupImsi(t: Tree<UeContext>, imsi: nat): Option<nat> {
    Lookup(t, Imsi, imsi)
  }

  // ---------------------------------------------------------------- what a lookup means

  /** Whatever the tree holds, a hit for a non-zero key carries that key. */
  lemma LookupSound(t: Tree<UeContext>, k: Key, v: nat)
    requires IsKey(k, v) && v > 0 && Lookup(t, k, v).Some?
    ensures KeyOf(k, InOrder(t)[Lookup(t, k, v).value]) == v
  {
    assert Compare(Reference(k, v), InOrder(t)[Lookup(t, k, v).value]) == 0;
  }

  lemma LookupImsiSound(t: Tree<UeContext>, imsi: nat)
    requires imsi > 0 && LookupImsi(t, imsi).Some?
    ensures InOrder(t)[LookupImsi(t, imsi).value].imsi == imsi
  {
    LookupSound(t, Imsi, imsi);
  }

  /** The condition under which the context at position `i` is found under key `k` however the
      tree is balanced: its key separates the smaller keys before it from the larger after it. */
  ghost predicate KeySeparates(s: seq<UeContext>, k: Key, i: nat)
    requires i < |s|
  {
    && (forall j :: 0 <= j < i ==> KeyOf(k, s[j]) < KeyOf(k, s[i]))
    && (forall j :: i < j < |s| ==> KeyOf(k, s[j]) > KeyOf(k, s[i]))
  }

  lemma LookupExactIff(s: seq<UeContext>, k: Key, v: nat, i: nat)
    requires IsKey(k, v) && v > 0 && i < |s| && KeyOf(k, s[i]) == v
    ensures (forall t: Tree<UeContext> :: InOrder(t) == s ==> Lookup(t, k, v) == Some(i))
            <==> KeySeparates(s, k, i)
  {
    var cmp := Against(Reference(k, v));
    ExactInEveryShape(s, cmp, i);
    assert forall j :: 0 <= j < |s| ==> cmp(s[j]) == Sign(v, KeyOf(k, s[j]));
    assert Separates(s, cmp, i) <==> KeySeparates(s, k, i);
  }

  /** An all-zero reference compares equal to everything, so it hits the root of any tree. */
  lemma ZeroProbeHitsRoot(t: Tree<UeContext>, k: Key)
    ensures Lookup(t, k, 0) == if t.Leaf? then None else Some(|InOrder(t.left)|)
    ensures LookupImsi(t, 0) == Lookup(t, k, 0)
  {
    if t.Node? { assert Compare(Reference(k, 0), t.elem) == 0; }
    assert Reference(k, 0) == BLANK.(imsi := 0) == BLANK;
  }

  function LookupGuti(t: Tree<UeContext>, g: Guti): Option<nat> {
    FindPos(t, Against(BLANK.(guti := g)))
  }

  /** A reference with nothing but a GUTI compares equal to everything too, because the comparator reads
      both PLMNs from the reference. So the lookup by GUTI answers with the root of any tree, and with
      a context of that GUTI exactly when the root happens to be one. */
  lemma GutiLookupHitsRoot(t: Tree<UeContext>, g: Guti)
    ensures LookupGuti(t, g) == if t.Leaf? then None else Some(|InOrder(t.left)|)
    ensures LookupGuti(t, g).Some? && InOrder(t)[LookupGuti(t, g).value].guti == g <==> t.Node? && t.elem.guti == g
  {
    if t.Node? {
      assert Compare(BLANK.(guti := g), t.elem) == 0;
      assert InOrder(t)[|InOrder(t.left)|] == t.elem;
    }
  }

  // ---------------------------------------------------------------- the handlers

  datatype UeTable = UeTable(tree: Tree<UeContext>, nbUeManaged: uint32)

  const EMPTY_TABLE := UeTable(Leaf, 0)

  datatype Event =
    | ConnEstInd(mmeUeS1apId: uint32)
    | AuthParamReq(ueId: uint32, imsi: nat, plmn: Plmn)
    | UpdateLocationAns(ulaImsi: nat, s11Teid: uint32)

  /** Fatal is the process stopping at one of the handler's assertions. */
  datatype Outcome = Done | Fatal

  /** A context as a handler creates it: both identifiers set to the same number. */
  function NewContext(id: uint32): UeContext {
    BLANK.(mmeUeS1apId := id, ueId := id)
  }

  /** mme_insert_ue_context: the counter moves even when the insertion collides, the tree does not.
      Otherwise it is some tree, balanced in any way, with the new context at its leaf position. */
  ghost predicate InsertStep(s: UeTable, x: UeContext, s': UeTable, ok: bool) {
    && s'.nbUeManaged == (s.nbUeManaged + 1) % TWO_32
    && ok == FindPos(s.tree, Against(x)).None?
    && if ok then InOrder(s'.tree) == InOrder(Insert(s.tree, x, Against(x))) else s'.tree == s.tree
  }

  ghost predicate Step(s: UeTable, ev: Event, s': UeTable, out: Outcome) {
    var order := InOrder(s.tree);
    match ev
    case ConnEstInd(id) =>
      if Lookup(s.tree, S1apId, id).Some? then s' == s && out == Done
      else
        exists ok: bool :: InsertStep(s, NewContext(id), s', ok)
          && out == if ok && Lookup(s'.tree, S1apId, id).Some? && Lookup(s'.tree, NasUeId, id).Some?
                    then Done else Fatal
    case AuthParamReq(ueId, imsi, plmn) =>
      (match LookupImsi(s.tree, imsi)
       case Some(p) =>
         s' == s.(tree := Write(s.tree, p, order[p].(guti := order[p].guti.(plmn := plmn)))) && out == Done
       case None =>
         match Lookup(s.tree, NasUeId, ueId)
         case Some(p) =>
           && s' == s.(tree := Write(s.tree, p, order[p].(imsi := imsi, guti := order[p].guti.(plmn := plmn))))
           && out == Done
         case None =>
           var x := NewContext(ueId);
           if FindPos(s.tree, Against(x)).Some? then out == Fatal
           else
             && out == Done
             && s'.nbUeManaged == (s.nbUeManaged + 1) % TWO_32
             && InOrder(s'.tree) == InsertAt(order, InsertPos(s.tree, Against(x)),
                                             x.(imsi := imsi, guti := x.guti.(plmn := plmn))))
    case UpdateLocationAns(imsi, teid) =>
      (match LookupImsi(s.tree, imsi)
       case None => s' == s && out == Done
       case Some(p) => s' == s.(tree := Write(s.tree, p, order[p].(mmeS11Teid := teid))) && out == Done)
  }

  class MmeUeContexts {
    var tree: Tree<UeContext>
    var nbUeManaged: uint32

    constructor ()
      ensures State() == EMPTY_TABLE
    {
      tree, nbUeManaged := Leaf, 0;
    }

    function State(): UeTable
      reads this
    {
      UeTable(tree, nbUeManaged)
    }

    method InsertContext(x: UeContext) returns (ok: bool)
      modifies this
      ensures InsertStep(old(State()), x, State(), ok)
    {
      nbUeManaged := (nbUeManaged + 1) % TWO_32;
      ok := FindPos(tree, Against(x)).None?;
      if ok {
        var grown := Insert(tree, x, Against(x));
        // Rebalancing: any tree with the same in-order sequence.
        var balanced :| InOrder(balanced) == InOrder(grown);
        tree := balanced;
      }
    }

    method HandleConnEstInd(id: uint32) returns (out: Outcome)
      modifies this
      ensures Step(old(State()), ConnEstInd(id), State(), out)
    {
      out := Done;
      if Lookup(tree, S1apId, id).None? {
        var ok := InsertContext(NewContext(id));
        if !ok || Lookup(tree, S1apId, id).None? || Lookup(tree, NasUeId, id).None? {
          out := Fatal;
        }
      }
    }

    method HandleAuthParamReq(ueId: uint32, imsi: nat, plmn: Plmn) returns (out: Outcome)
      modifies this
      ensures Step(old(State()), AuthParamReq(ueId, imsi, plmn), State(), out)
    {
      out := Done;
      var found := LookupImsi(tree, imsi);
      if found.Some? {
        var c := InOrder(tree)[found.value];
        tree := Write(tree, found.value, c.(guti := c.guti.(plmn := plmn)));
        return;
      }
      var p := Lookup(tree, NasUeId, ueId);
      if p.None? {
        var x := NewContext(ueId);
        InsertKeepsOrder(tree, x, Against(x));
        var at := InsertPos(tree, Against(x));
        var ok := InsertContext(x);
        if !ok { return Fatal; }
        p := Some(at);
      }
      var c := InOrder(tree)[p.value];
      tree := Write(tree, p.value, c.(imsi := imsi, guti := c.guti.(plmn := plmn)));
    }

    method HandleUpdateLocationAns(imsi: nat, s11Teid: uint32) returns (out: Outcome)
      modifies this
      ensures Step(old(State()), UpdateLocationAns(imsi, s11Teid), State(), out)
    {
      out := Done;
      var found := LookupImsi(tree, imsi);
      if found.Some? {
        tree := Write(tree, found.value, InOrder(tree)[found.value].(mmeS11Teid := s11Teid));
      }
    }
  }

  // ---------------------------------------------------------------- every run

  ghost predicate SortedById(c: seq<UeContext>) {
    && (forall i, j :: 0 <= i < j < |c| ==> c[i].mmeUeS1apId < c[j].mmeUeS1apId)
    && (forall i :: 0 <= i < |c| ==> c[i].ueId == c[i].mmeUeS1apId)
  }

  ghost predicate Inv(s: UeTable) {
    && SortedById(InOrder(s.tree))
    && s.nbUeManaged == |InOrder(s.tree)| % TWO_32
  }

  lemma OrderedById(s: UeTable, x: UeContext)
    requires Inv(s) && x.imsi == 0 && x.mmeS11Teid == 0
    requires x.mmeUeS1apId > 0 || x.ueId > 0
    ensures Ordered(InOrder(s.tree), Against(x))
  {}

  /** While the invariant holds, both identifier lookups are exact for every non-zero identifier,
      whatever IMSIs and tunnel identifiers have been written into the nodes. */
  lemma IdLookupsExact(s: UeTable, id: uint32, p: nat)
    requires Inv(s) && id > 0
    ensures Lookup(s.tree, S1apId, id) == Some(p)
            <==> p < |InOrder(s.tree)| && InOrder(s.tree)[p].mmeUeS1apId == id
    ensures Lookup(s.tree, NasUeId, id) == Lookup(s.tree, S1apId, id)
  {
    var c := InOrder(s.tree);
    OrderedById(s, Reference(S1apId, id));
    OrderedById(s, Reference(NasUeId, id));
    if i :| 0 <= i < |c| && c[i].mmeUeS1apId == id {
      OrderedFinds(s.tree, Against(Reference(S1apId, id)), i);
      OrderedFinds(s.tree, Against(Reference(NasUeId, id)), i);
    } else {
      if Lookup(s.tree, S1apId, id).Some? { LookupSound(s.tree, S1apId, id); }
      if Lookup(s.tree, NasUeId, id).Some? { LookupSound(s.tree, NasUeId, id); }
    }
  }

  lemma ZeroIdMissesOnlyWhenEmpty(s: UeTable, k: Key)
    ensures Lookup(s.tree, k, 0).None? <==> s.tree.Leaf?
    ensures s.tree.Leaf? <==> InOrder(s.tree) == []
  {
    ZeroProbeHitsRoot(s.tree, k);
    if s.tree.Node? { assert InOrder(s.tree)[|InOrder(s.tree.left)|] == s.tree.elem; }
  }

  /** A failed identifier lookup means the identifier is new. */
  lemma MissedIdIsNew(s: UeTable, id: uint32)
    requires Inv(s) && (Lookup(s.tree, S1apId, id).None? || Lookup(s.tree, NasUeId, id).None?)
    ensures forall i :: 0 <= i < |InOrder(s.tree)| ==> InOrder(s.tree)[i].mmeUeS1apId != id
  {
    if id == 0 {
      ZeroIdMissesOnlyWhenEmpty(s, S1apId);
      ZeroIdMissesOnlyWhenEmpty(s, NasUeId);
    } else if i :| 0 <= i < |InOrder(s.tree)| && InOrder(s.tree)[i].mmeUeS1apId == id {
      IdLookupsExact(s, id, i);
    }
  }

  /** An insertion after a failed identifier lookup never collides, and the new leaf lands
      between the smaller and the larger identifiers. */
  lemma NewIdInsertsInPlace(s: UeTable, id: uint32)
    requires Inv(s) && (Lookup(s.tree, S1apId, id).None? || Lookup(s.tree, NasUeId, id).None?)
    ensures FindPos(s.tree, Against(NewContext(id))).None?
    ensures var p := InsertPos(s.tree, Against(NewContext(id)));
      && (forall j :: 0 <= j < p ==> InOrder(s.tree)[j].mmeUeS1apId < id)
      && (forall j :: p <= j < |InOrder(s.tree)| ==> InOrder(s.tree)[j].mmeUeS1apId > id)
  {
    var y, c := NewContext(id), InOrder(s.tree);
    MissedIdIsNew(s, id);
    if id == 0 {
      ZeroIdMissesOnlyWhenEmpty(s, S1apId);
      ZeroIdMissesOnlyWhenEmpty(s, NasUeId);
    } else {
      OrderedById(s, y);
      assert forall j :: 0 <= j < |c| ==> Against(y)(c[j]) == Sign(id, c[j].mmeUeS1apId);
      OrderedInsertPos(s.tree, Against(y));
    }
  }

  lemma InsertAtKeepsSorted(c: seq<UeContext>, p: nat, x: UeContext)
    requires SortedById(c) && p <= |c| && x.mmeUeS1apId == x.ueId
    requires forall j :: 0 <= j < p ==> c[j].mmeUeS1apId < x.ueId
    requires forall j :: p <= j < |c| ==> c[j].mmeUeS1apId > x.ueId
    ensures SortedById(InsertAt(c, p, x))
  {}

  lemma SuccMod(n: nat)
    ensures (n % TWO_32 + 1) % TWO_32 == (n + 1) % TWO_32
  {}

  /** Filling the leaf position of a new identifier with a context `x` of that identifier. */
  lemma NewContextKeepsInv(s: UeTable, id: uint32, x: UeContext, s': UeTable)
    requires Inv(s) && (Lookup(s.tree, S1apId, id).None? || Lookup(s.tree, NasUeId, id).None?)
    requires x.mmeUeS1apId == x.ueId == id
    requires InOrder(s'.tree) == InsertAt(InOrder(s.tree), InsertPos(s.tree, Against(NewContext(id))), x)
    requires s'.nbUeManaged == (s.nbUeManaged + 1) % TWO_32
    ensures FindPos(s.tree, Against(NewContext(id))).None? && Inv(s')
  {
    NewIdInsertsInPlace(s, id);
    InsertAtKeepsSorted(InOrder(s.tree), InsertPos(s.tree, Against(NewContext(id))), x);
    SuccMod(|InOrder(s.tree)|);
  }

  /** The lookups asserted after an insertion find something, also for identifier 0. */
  lemma StoredIdIsFound(s: UeTable, p: nat)
    requires Inv(s) && p < |InOrder(s.tree)|
    ensures Lookup(s.tree, S1apId, InOrder(s.tree)[p].mmeUeS1apId).Some?
    ensures Lookup(s.tree, NasUeId, InOrder(s.tree)[p].mmeUeS1apId).Some?
  {
    var id := InOrder(s.tree)[p].mmeUeS1apId;
    if id > 0 {
      IdLookupsExact(s, id, p);
    } else {
      ZeroIdMissesOnlyWhenEmpty(s, S1apId);
      ZeroIdMissesOnlyWhenEmpty(s, NasUeId);
    }
  }

  lemma ConnEstIndKeepsInv(s: UeTable, id: uint32, s': UeTable, out: Outcome)
    requires Inv(s) && Step(s, ConnEstInd(id), s', out)
    ensures Inv(s') && out == Done
  {
    if Lookup(s.tree, S1apId, id).None? {
      var x := NewContext(id);
      var ok: bool :| InsertStep(s, x, s', ok);
      InsertStepKeepsInv(s, id, s', ok);
    }
  }

  lemma InsertStepKeepsInv(s: UeTable, id: uint32, s': UeTable, ok: bool)
    requires Inv(s) && Lookup(s.tree, S1apId, id).None? && InsertStep(s, NewContext(id), s', ok)
    ensures ok && Inv(s') && Lookup(s'.tree, S1apId, id).Some? && Lookup(s'.tree, NasUeId, id).Some?
  {
    var x := NewContext(id);
    var p := InsertPos(s.tree, Against(x));
    NewIdInsertsInPlace(s, id);
    InsertKeepsOrder(s.tree, x, Against(x));
    NewContextKeepsInv(s, id, x, s');
    StoredIdIsFound(s', p);
  }

  lemma AuthParamReqKeepsInv(s: UeTable, ueId: uint32, imsi: nat, plmn: Plmn, s': UeTable, out: Outcome)
    requires Inv(s) && Step(s, AuthParamReq(ueId, imsi, plmn), s', out)
    ensures Inv(s') && out == Done
  {
    if LookupImsi(s.tree, imsi).None? && Lookup(s.tree, NasUeId, ueId).None? {
      var x := NewContext(ueId);
      NewIdInsertsInPlace(s, ueId);
      NewContextKeepsInv(s, ueId, x.(imsi := imsi, guti := x.guti.(plmn := plmn)), s');
    }
  }

  lemma StepKeepsInv(s: UeTable, ev: Event, s': UeTable, out: Outcome)
    requires Inv(s) && Step(s, ev, s', out)
    ensures Inv(s') && out == Done
  {
    match ev
    case ConnEstInd(id) => ConnEstIndKeepsInv(s, id, s', out);
    case AuthParamReq(ueId, imsi, plmn) => AuthParamReqKeepsInv(s, ueId, imsi, plmn, s', out);
    case UpdateLocationAns(imsi, teid) =>
  }

  ghost predicate IsRun(states: seq<UeTable>, events: seq<Event>, outs: seq<Outcome>) {
    && |states| == |events| + 1 && |outs| == |events| && states[0] == EMPTY_TABLE
    && forall i :: 0 <= i < |events| ==> Step(states[i], events[i], states[i + 1], outs[i])
  }

  /** Over every run, with no condition on the identifiers: the tree stays strictly sorted by
      mme_ue_s1ap_id, both identifiers agree, the counter is the tree size, no insertion collides
      and no assertion after an insertion fires. */
  lemma {:induction false} EveryRunKeepsInv(states: seq<UeTable>, events: seq<Event>, outs: seq<Outcome>, i: nat)
    requires IsRun(states, events, outs) && i < |states|
    ensures Inv(states[i])
    ensures forall j :: 0 <= j < i ==> outs[j] == Done
  {
    if i > 0 {
      EveryRunKeepsInv(states, events, outs, i - 1);
      StepKeepsInv(states[i - 1], events[i - 1], states[i], outs[i - 1]);
    }
  }

  /** Distinct 32-bit identifiers bound the table, so the 32-bit counter is the exact size until
      every identifier is in use. */
  lemma CounterIsSize(s: UeTable)
    requires Inv(s)
    ensures |InOrder(s.tree)| <= TWO_32
    ensures |InOrder(s.tree)| < TWO_32 ==> s.nbUeManaged == |InOrder(s.tree)|
  {
    var c := InOrder(s.tree);
    if |c| > 0 { IdAtLeastPosition(s, |c| - 1); }
  }

  lemma {:induction false} IdAtLeastPosition(s: UeTable, i: nat)
    requires Inv(s) && i < |InOrder(s.tree)|
    ensures InOrder(s.tree)[i].mmeUeS1apId >= i
  {
    if i > 0 { IdAtLeastPosition(s, i - 1); }
  }

  /** IMSI lookups have no such guarantee: in-place IMSI writes can leave a tree in which a stored
      IMSI is missed. Identifiers 1 and 2 are enough,
      whose IMSIs end in 20 and in 10. */
  lemma ImsiLookupCanMiss() returns (states: seq<UeTable>, events: seq<Event>, outs: seq<Outcome>)
    ensures IsRun(states, events, outs)
    ensures var t := states[|events|].tree;
      && LookupImsi(t, 208930000000010).None?
      && exists i :: 0 <= i < |InOrder(t)| && InOrder(t)[i].imsi == 208930000000010
  {
    var plmn := Plmn(208, 93, 2);
    events := [AuthParamReq(1, 208930000000020, plmn), AuthParamReq(2, 208930000000010, plmn)];
    outs := [Done, Done];
    var a := NewContext(1).(imsi := 208930000000020, guti := NO_GUTI.(plmn := plmn));
    var b := NewContext(2).(imsi := 208930000000010, guti := NO_GUTI.(plmn := plmn));
    var t1 := Node(Leaf, a, Leaf);
    var t2 := Node(Leaf, a, Node(Leaf, b, Leaf));
    states := [EMPTY_TABLE, UeTable(t1, 1), UeTable(t2, 2)];
    assert InOrder(t1) == [a];
    assert InOrder(t2) == [a, b];
    assert Step(states[0], events[0], states[1], Done);
    assert Step(states[1], events[1], states[2], Done);
    assert InOrder(t2)[1].imsi == 208930000000010;
  }

  /** When it is found: in every state of a run, a stored IMSI is found however the tree is balanced
      exactly when the contexts with smaller identifiers have smaller IMSIs and those with larger
      identifiers larger ones. */
  lemma ImsiLookupExactIff(states: seq<UeTable>, events: seq<Event>, outs: seq<Outcome>, n: nat, i: nat)
    requires IsRun(states, events, outs) && n < |states|
    requires i < |InOrder(states[n].tree)| && InOrder(states[n].tree)[i].imsi > 0
    ensures var c := InOrder(states[n].tree);
      (forall t: Tree<UeContext> :: InOrder(t) == c ==> LookupImsi(t, c[i].imsi) == Some(i))
      <==> forall x :: x in c && x != c[i] ==> x.imsi != c[i].imsi && (x.imsi < c[i].imsi <==> x.mmeUeS1apId < c[i].mmeUeS1apId)
  {
    var c := InOrder(states[n].tree);
    EveryRunKeepsInv(states, events, outs, n);
    LookupExactIff(c, Imsi, c[i].imsi, i);
    ImsisFollowIds(c, i);
  }

  /** In a table sorted by identifier, position in the tree is order of identifiers. */
  lemma ImsisFollowIds(c: seq<UeContext>, i: nat)
    requires SortedById(c) && i < |c|
    ensures KeySeparates(c, Imsi, i)
            <==> forall x :: x in c && x != c[i] ==> x.imsi != c[i].imsi && (x.imsi < c[i].imsi <==> x.mmeUeS1apId < c[i].mmeUeS1apId)
  {
    assert forall j :: 0 <= j < |c| && j != i ==> c[j] in c && c[j] != c[i];
  }

  // ---------------------------------------------------------------- what the handlers write

  /** `x` is the one context of `c` with identifier `id`. */
  ghost predicate IsOnly(c: seq<UeContext>, id: uint32, x: UeContext) {
    x in c && x.ueId == id && x.mmeUeS1apId == id && forall y :: y in c && y.ueId == id ==> y == x
  }

  ghost predicate OthersStay(c: seq<UeContext>, c': seq<UeContext>, id: uint32) {
    forall y: UeContext :: y.ueId != id ==> (y in c <==> y in c')
  }

  lemma InsertedAlone(c: seq<UeContext>, p: nat, x: UeContext)
    requires p <= |c| && SortedById(InsertAt(c, p, x))
    ensures IsOnly(InsertAt(c, p, x), x.ueId, x) && OthersStay(c, InsertAt(c, p, x), x.ueId)
    ensures forall y :: y in c ==> y.ueId != x.ueId
  {
    var c' := InsertAt(c, p, x);
    assert c'[p] == x;
    forall y: UeContext | y.ueId != x.ueId ensures y in c <==> y in c' {
      if y in c {
        var j :| 0 <= j < |c| && c[j] == y;
        assert c'[if j < p then j else j + 1] == y;
      }
    }
    forall j | 0 <= j < |c| ensures c[j].ueId != x.ueId {
      assert c'[if j < p then j else j + 1] == c[j];
    }
  }

  lemma WrittenAlone(c: seq<UeContext>, p: nat, x: UeContext)
    requires p < |c| && SortedById(c) && x.ueId == c[p].ueId && x.mmeUeS1apId == c[p].mmeUeS1apId
    ensures IsOnly(c[p := x], x.ueId, x) && OthersStay(c, c[p := x], x.ueId) && IsOnly(c, x.ueId, c[p])
  {
    var c' := c[p := x];
    assert c'[p] == x;
    forall y: UeContext | y.ueId != x.ueId ensures y in c <==> y in c' {
      if y in c {
        var j :| 0 <= j < |c| && c[j] == y;
        assert c'[j] == y;
      }
    }
  }

  /** A connection establishment for a new identifier adds a context with that identifier and nothing
      else in it; for a known one it changes nothing. */
  lemma ConnEstIndAddsBlank(s: UeTable, id: uint32, s': UeTable, out: Outcome)
    requires Inv(s) && Step(s, ConnEstInd(id), s', out)
    ensures if Lookup(s.tree, S1apId, id).Some? then s' == s
            else IsOnly(InOrder(s'.tree), id, UeContext(0, 0, id, id, Guti(0, 0, 0, Plmn(0, 0, 0))))
                 && OthersStay(InOrder(s.tree), InOrder(s'.tree), id)
  {
    if Lookup(s.tree, S1apId, id).None? {
      var x := NewContext(id);
      ConnEstIndKeepsInv(s, id, s', out);
      NewIdInsertsInPlace(s, id);
      InsertKeepsOrder(s.tree, x, Against(x));
      InsertedAlone(InOrder(s.tree), InsertPos(s.tree, Against(x)), x);
    }
  }

  /** An authentication request for an IMSI no context is found by leaves the IMSI and the PLMN in the
      context of its identifier: the one that was there, with its other fields, or a new one. */
  lemma AuthStoresImsi(s: UeTable, id: uint32, imsi: nat, plmn: Plmn, s': UeTable, out: Outcome) returns (x: UeContext)
    requires Inv(s) && Step(s, AuthParamReq(id, imsi, plmn), s', out)
    requires id > 0 && LookupImsi(s.tree, imsi).None?
    ensures IsOnly(InOrder(s'.tree), id, x) && OthersStay(InOrder(s.tree), InOrder(s'.tree), id)
    ensures x.imsi == imsi && x.guti.plmn == plmn
    ensures forall y :: y in InOrder(s.tree) && y.ueId == id ==>
              && x.mmeS11Teid == y.mmeS11Teid && x.guti.mTmsi == y.guti.mTmsi
              && x.guti.mmeCode == y.guti.mmeCode && x.guti.mmeGid == y.guti.mmeGid
    ensures (forall y :: y in InOrder(s.tree) ==> y.ueId != id) ==> x == UeContext(imsi, 0, id, id, Guti(0, 0, 0, plmn))
  {
    AuthParamReqKeepsInv(s, id, imsi, plmn, s', out);
    var c, found := InOrder(s.tree), Lookup(s.tree, NasUeId, id);
    if found.Some? {
      var p := found.value;
      LookupSound(s.tree, NasUeId, id);
      x := InOrder(s'.tree)[p];
      WrittenAlone(c, p, x);
      assert c[p] in c;
    } else {
      var p := InsertPos(s.tree, Against(NewContext(id)));
      NewIdInsertsInPlace(s, id);
      x := InOrder(s'.tree)[p];
      InsertedAlone(c, p, x);
    }
  }

  /** For an IMSI some context is found by, that context gets the PLMN and nothing else changes. */
  lemma AuthOnHitWritesPlmn(s: UeTable, id: uint32, imsi: nat, plmn: Plmn, s': UeTable, out: Outcome)
    requires Step(s, AuthParamReq(id, imsi, plmn), s', out) && LookupImsi(s.tree, imsi).Some?
    ensures var c, p := InOrder(s.tree), LookupImsi(s.tree, imsi).value;
      && (imsi > 0 ==> c[p].imsi == imsi) && s'.nbUeManaged == s.nbUeManaged
      && InOrder(s'.tree) == c[p := UeContext(c[p].imsi, c[p].mmeS11Teid, c[p].mmeUeS1apId, c[p].ueId,
                                              Guti(c[p].guti.mTmsi, c[p].guti.mmeCode, c[p].guti.mmeGid, plmn))]
  {
    if imsi > 0 { LookupImsiSound(s.tree, imsi); }
  }

  /** An update location answer gives the context found by its IMSI the S11 TEID and changes nothing
      else; one for an IMSI that is not found changes nothing. */
  lemma UpdateLocationWritesTeid(s: UeTable, imsi: nat, teid: uint32, s': UeTable, out: Outcome)
    requires Step(s, UpdateLocationAns(imsi, teid), s', out)
    ensures LookupImsi(s.tree, imsi).None? ==> s' == s
    ensures LookupImsi(s.tree, imsi).Some? ==>
      var c, p := InOrder(s.tree), LookupImsi(s.tree, imsi).value;
      && (imsi > 0 ==> c[p].imsi == imsi) && s'.nbUeManaged == s.nbUeManaged
      && InOrder(s'.tree) == c[p := UeContext(c[p].imsi, teid, c[p].mmeUeS1apId, c[p].ueId, c[p].guti)]
  {
    if imsi > 0 && LookupImsi(s.tree, imsi).Some? { LookupImsiSound(s.tree, imsi); }
  }

  /** The IMSI of the latest authentication request for `id` whose IMSI lookup missed, 0 if none. */
  function LatestImsi(states: seq<UeTable>, events: seq<Event>, n: nat, id: uint32): nat
    requires n <= |events| < |states|
  {
    if n == 0 then 0
    else match events[n - 1]
      case AuthParamReq(i, imsi, _) =>
        if i == id && LookupImsi(states[n - 1].tree, imsi).None? then imsi else LatestImsi(states, events, n - 1, id)
      case _ => LatestImsi(states, events, n - 1, id)
  }

  ghost predicate HasId(c: seq<UeContext>, id: uint32) {
    exists x :: x in c && x.ueId == id
  }

  ghost predicate ImsisFollow(states: seq<UeTable>, events: seq<Event>, n: nat)
    requires n <= |events| < |states|
  {
    && (forall x :: x in InOrder(states[n].tree) ==> x.imsi == LatestImsi(states, events, n, x.ueId))
    && forall id :: LatestImsi(states, events, n, id) != 0 ==> HasId(InOrder(states[n].tree), id)
  }

  lemma StoredImsiFollows(states: seq<UeTable>, events: seq<Event>, n: nat, m: nat, x: UeContext)
    requires n < |events| < |states| && m == n + 1 && ImsisFollow(states, events, n)
    requires events[n].AuthParamReq? && LookupImsi(states[n].tree, events[n].imsi).None?
    requires x.ueId == events[n].ueId && x.imsi == events[n].imsi
    requires IsOnly(InOrder(states[m].tree), x.ueId, x) && OthersStay(InOrder(states[n].tree), InOrder(states[m].tree), x.ueId)
    ensures ImsisFollow(states, events, m)
  {
    var c, c' := InOrder(states[n].tree), InOrder(states[m].tree);
    forall y | y in c' ensures y.imsi == LatestImsi(states, events, m, y.ueId) {
      if y.ueId != x.ueId { assert y in c; }
    }
    forall id | LatestImsi(states, events, m, id) != 0 ensures HasId(c', id) {
      if id == x.ueId { assert x in c'; } else { IdStays(c, c', id, x.ueId); }
    }
  }

  lemma AuthKeepsImsis(states: seq<UeTable>, events: seq<Event>, n: nat, m: nat, out: Outcome)
    requires n < |events| < |states| && m == n + 1 && ImsisFollow(states, events, n) && Inv(states[n])
    requires events[n].AuthParamReq? && events[n].ueId > 0 && Step(states[n], events[n], states[m], out)
    ensures ImsisFollow(states, events, m)
  {
    var s, s', ev := states[n], states[m], events[n];
    if LookupImsi(s.tree, ev.imsi).None? {
      var x := AuthStoresImsi(s, ev.ueId, ev.imsi, ev.plmn, s', out);
      StoredImsiFollows(states, events, n, m, x);
    } else {
      AuthOnHitWritesPlmn(s, ev.ueId, ev.imsi, ev.plmn, s', out);
      SameImsis(states, events, n, m);
    }
  }

  lemma IdStays(c: seq<UeContext>, c': seq<UeContext>, id: uint32, other: uint32)
    requires HasId(c, id) && OthersStay(c, c', other) && id != other
    ensures HasId(c', id)
  {
    var y :| y in c && y.ueId == id;
    assert y in c';
  }

  lemma SameImsis(states: seq<UeTable>, events: seq<Event>, n: nat, m: nat)
    requires n < |events| < |states| && m == n + 1 && ImsisFollow(states, events, n)
    requires var c, c' := InOrder(states[n].tree), InOrder(states[m].tree);
      |c'| == |c| && forall j :: 0 <= j < |c| ==> c'[j].imsi == c[j].imsi && c'[j].ueId == c[j].ueId
    requires events[n].AuthParamReq? ==> LookupImsi(states[n].tree, events[n].imsi).Some?
    ensures ImsisFollow(states, events, m)
  {
    var c, c' := InOrder(states[n].tree), InOrder(states[m].tree);
    forall j | 0 <= j < |c'| ensures c'[j].imsi == LatestImsi(states, events, m, c'[j].ueId) { assert c[j] in c; }
    forall id | LatestImsi(states, events, m, id) != 0 ensures HasId(c', id) {
      assert HasId(c, id);
      var y :| y in c && y.ueId == id;
      var j :| 0 <= j < |c| && c[j] == y;
      assert c'[j] in c';
    }
  }

  lemma BlankFollows(states: seq<UeTable>, events: seq<Event>, n: nat, m: nat, id: uint32)
    requires n < |events| < |states| && m == n + 1 && ImsisFollow(states, events, n) && !events[n].AuthParamReq?
    requires forall y :: y in InOrder(states[n].tree) ==> y.ueId != id
    requires OthersStay(InOrder(states[n].tree), InOrder(states[m].tree), id)
    requires forall y :: y in InOrder(states[m].tree) && y.ueId == id ==> y.imsi == 0
    ensures ImsisFollow(states, events, m)
  {
    var c, c' := InOrder(states[n].tree), InOrder(states[m].tree);
    assert !HasId(c, id);
    forall y | y in c' ensures y.imsi == LatestImsi(states, events, m, y.ueId) {
      if y.ueId != id { assert y in c; }
    }
    forall i | LatestImsi(states, events, m, i) != 0 ensures HasId(c', i) { IdStays(c, c', i, id); }
  }

  lemma ConnEstKeepsImsis(states: seq<UeTable>, events: seq<Event>, n: nat, m: nat, out: Outcome)
    requires n < |events| < |states| && m == n + 1 && ImsisFollow(states, events, n) && Inv(states[n])
    requires events[n].ConnEstInd? && events[n].mmeUeS1apId > 0 && Step(states[n], events[n], states[m], out)
    ensures ImsisFollow(states, events, m)
  {
    var s, s', id := states[n], states[m], events[n].mmeUeS1apId;
    ConnEstIndAddsBlank(s, id, s', out);
    if Lookup(s.tree, S1apId, id).Some? {
      SameImsis(states, events, n, m);
    } else {
      MissedIdIsNew(s, id);
      assert forall y :: y in InOrder(s.tree) ==> y.ueId != id;
      BlankFollows(states, events, n, m, id);
    }
  }

  predicate NonzeroId(ev: Event) {
    && (ev.ConnEstInd? ==> ev.mmeUeS1apId > 0)
    && (ev.AuthParamReq? ==> ev.ueId > 0)
  }

  lemma StepKeepsImsis(states: seq<UeTable>, events: seq<Event>, n: nat, m: nat, out: Outcome)
    requires n < |events| < |states| && m == n + 1 && ImsisFollow(states, events, n) && Inv(states[n])
    requires NonzeroId(events[n]) && Step(states[n], events[n], states[m], out)
    ensures ImsisFollow(states, events, m)
  {
    match events[n]
    case ConnEstInd(_) => ConnEstKeepsImsis(states, events, n, m, out);
    case AuthParamReq(_, _, _) => AuthKeepsImsis(states, events, n, m, out);
    case UpdateLocationAns(imsi, teid) =>
      UpdateLocationWritesTeid(states[n], imsi, teid, states[m], out);
      SameImsis(states, events, n, m);
  }

  /** Over every run with non-zero identifiers: a context holds the IMSI of the latest authentication
      request for its identifier whose IMSI was not found, whatever else is written, or 0. */
  lemma {:induction false} EveryImsiIsLatest(states: seq<UeTable>, events: seq<Event>, outs: seq<Outcome>, n: nat)
    requires IsRun(states, events, outs) && n <= |events|
    requires forall j :: 0 <= j < |events| ==> NonzeroId(events[j])
    ensures ImsisFollow(states, events, n)
  {
    if n > 0 {
      EveryImsiIsLatest(states, events, outs, n - 1);
      EveryRunKeepsInv(states, events, outs, n - 1);
      assert NonzeroId(events[n - 1]) && Step(states[n - 1], events[n - 1], states[n], outs[n - 1]);
      StepKeepsImsis(states, events, n - 1, n, outs[n - 1]);
    }
  }
}
