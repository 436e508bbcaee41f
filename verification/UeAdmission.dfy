/**
 Admitting a UE at the eNB: the first NAS request picks an MME, gives the UE an identifier no
 other UE of the eNB has, and assigns it one of the association's streams in turn.
 */
module UeAdmission {
  import opened Common
  import opened Division
  import opened SearchTree
  import opened EnbInstances
  import opened S1SetupAccounting
  import opened S1SetupLaws
  import opened Counting
  import opened MmeSelection

  // ---------------------------------------------------------------- UE identifiers

  function CompareUes(p1: Ue, p2: Ue): int {
    Sign(p1.id, p2.id)
  }

  function AgainstId(id: uint24): Ue -> int {
    (u: Ue) => CompareUes(Ue(id, 0, 0), u)
  }

  ghost predicate SortedUes(s: seq<Ue>) {
    forall i, j :: 0 <= i < j < |s| ==> s[i].id < s[j].id
  }

  ghost predicate Used(s: seq<Ue>, id: uint24) {
    exists i :: 0 <= i < |s| && s[i].id == id
  }

  /** The insertion collides exactly when the identifier is in use, however the tree is balanced. */
  lemma CollidesIff(t: Tree<Ue>, id: uint24)
    requires SortedUes(InOrder(t))
    ensures FindPos(t, AgainstId(id)).Some? <==> Used(InOrder(t), id)
  {
    var s, cmp := InOrder(t), AgainstId(id);
    assert forall j :: 0 <= j < |s| ==> cmp(s[j]) == Sign(id, s[j].id);
    if i :| 0 <= i < |s| && s[i].id == id { OrderedFinds(t, cmp, i); }
  }

  lemma InsertKeepsSortedUes(t: Tree<Ue>, u: Ue)
    requires SortedUes(InOrder(t)) && !Used(InOrder(t), u.id)
    ensures var p := InsertPos(t, AgainstId(u.id));
      InOrder(Insert(t, u, AgainstId(u.id))) == InsertAt(InOrder(t), p, u) && SortedUes(InsertAt(InOrder(t), p, u))
  {
    var s, cmp := InOrder(t), AgainstId(u.id);
    CollidesIff(t, u.id);
    assert forall j :: 0 <= j < |s| ==> cmp(s[j]) == Sign(u.id, s[j].id);
    OrderedInsertPos(t, cmp);
    InsertKeepsOrder(t, u, cmp);
    InsertAtKeepsSorted(s, InsertPos(t, cmp), u);
  }

  lemma InsertAtKeepsSorted(s: seq<Ue>, p: nat, u: Ue)
    requires SortedUes(s) && p <= |s|
    requires forall j :: 0 <= j < p ==> s[j].id < u.id
    requires forall j :: p <= j < |s| ==> s[j].id > u.id
    ensures SortedUes(InsertAt(s, p, u))
  {}

  /** The identifiers tried are the low 24 bits of the random sums; the first unused one is taken. */
  ghost predicate IsFirstUnused(randoms: seq<nat>, s: seq<Ue>, k: nat) {
    && k < |randoms| && !Used(s, randoms[k] % TWO_24)
    && forall j :: 0 <= j < k ==> Used(s, randoms[j] % TWO_24)
  }

  // ---------------------------------------------------------------- streams

  /** `nextstream %= out_streams; stream = ++nextstream`. */
  function NextStream(next: nat, outStreams: uint16): (s: nat)
    requires outStreams > 0
    ensures 1 <= s <= outStreams
  {
    next % outStreams + 1
  }

  /** The stream of the k-th UE assigned to an association, counting from 1. */
  function StreamOf(k: nat, outStreams: uint16): nat
    requires outStreams > 0
  {
    if k == 0 then 0 else NextStream(StreamOf(k - 1, outStreams), outStreams)
  }

  lemma StepMod(n: nat, m: nat)
    requires m > 0
    ensures (n % m + 1) % m == (n + 1) % m
    ensures (n + 1) % m == if n % m + 1 == m then 0 else n % m + 1
    ensures (n + 1) / m == if n % m + 1 == m then n / m + 1 else n / m
  {
    var q, r := n / m, n % m;
    assert n == q * m + r;
    if r + 1 == m {
      assert n + 1 == (q + 1) * m;
      DivModUnique(n + 1, m, q + 1, 0);
      DivModUnique(m, m, 1, 0);
    } else {
      DivModUnique(n + 1, m, q, r + 1);
      DivModUnique(r + 1, m, 0, r + 1);
    }
  }

  /** The k-th UE gets stream ((k - 1) mod out_streams) + 1: stream 0, reserved for signalling that
      belongs to no UE, is never used. */
  lemma {:induction false} StreamIsRoundRobin(k: nat, outStreams: uint16)
    requires outStreams > 0 && k > 0
    ensures StreamOf(k, outStreams) == (k - 1) % outStreams + 1
  {
    if k > 1 {
      StreamIsRoundRobin(k - 1, outStreams);
      StepMod(k - 2, outStreams);
    }
  }

  /** How many of the first `k` UEs are on stream `s`. */
  function UesOn(k: nat, outStreams: uint16, s: nat): nat
    requires outStreams > 0
  {
    if k == 0 then 0 else UesOn(k - 1, outStreams, s) + if StreamOf(k, outStreams) == s then 1 else 0
  }

  /** The quotient and remainder of `k` determine the stream of the next UE and all the loads. */
  lemma StreamAfter(k: nat, m: uint16, q: nat, r: nat)
    requires r < m && k == q * m + r
    ensures StreamOf(k + 1, m) == r + 1
  {
    StreamIsRoundRobin(k + 1, m);
    DivModUnique(k, m, q, r);
  }

  lemma {:induction false} LoadAfter(k: nat, m: uint16, s: nat, q: nat, r: nat)
    requires 1 <= s <= m && r < m && k == q * m + r
    ensures UesOn(k, m, s) == q + if s <= r then 1 else 0
    decreases k
  {
    if r > 0 {
      LoadAfter(k - 1, m, s, q, r - 1);
      StreamAfter(k - 1, m, q, r - 1);
    } else if q > 0 {
      MulNext(q - 1, m);
      LoadAfter(k - 1, m, s, q - 1, m - 1);
      StreamAfter(k - 1, m, q - 1, m - 1);
    }
  }

  lemma UesOnStream(k: nat, outStreams: uint16, s: nat)
    requires outStreams > 0 && 1 <= s <= outStreams
    ensures UesOn(k, outStreams, s) == k / outStreams + if s <= k % outStreams then 1 else 0
  {
    LoadAfter(k, outStreams, s, k / outStreams, k % outStreams);
  }

  lemma OneRoundLater(k: nat, m: nat)
    requires m > 0
    ensures (k + m) / m == k / m + 1 && (k + m) % m == k % m
  {
    MulNext(k / m, m);
    DivModUnique(k + m, m, k / m + 1, k % m);
  }

  /** Any out_streams consecutive UEs use every stream exactly once. */
  lemma EveryStreamOncePerRound(k: nat, outStreams: uint16, s: nat)
    requires outStreams > 0 && 1 <= s <= outStreams
    ensures UesOn(k + outStreams, outStreams, s) == UesOn(k, outStreams, s) + 1
  {
    UesOnStream(k, outStreams, s);
    UesOnStream(k + outStreams, outStreams, s);
    OneRoundLater(k, outStreams);
  }

  /** At any time, the loads of two streams differ by at most one. */
  lemma LoadsAreBalanced(k: nat, outStreams: uint16, s1: nat, s2: nat)
    requires outStreams > 0 && 1 <= s1 <= outStreams && 1 <= s2 <= outStreams
    ensures UesOn(k, outStreams, s1) <= UesOn(k, outStreams, s2) + 1
  {
    UesOnStream(k, outStreams, s1);
    UesOnStream(k, outStreams, s2);
  }

  // ---------------------------------------------------------------- the handlers

  datatype Admission = Admission(p: nat, ueId: uint24, stream: nat)

  /** What admitting a UE does to the instance: the MME at `a.p` moves to its next stream, and the
      UE enters the tree at the place of its identifier. */
  ghost predicate Admitted(i: Instance, a: Admission, i': Instance) {
    && a.p < |InOrder(i.mmes)|
    && var m := InOrder(i.mmes)[a.p];
    && m.outStreams > 0 && a.stream == NextStream(m.nextStream, m.outStreams)
    && i' == i.(mmes := i'.mmes, ues := i'.ues)
    && InOrder(i'.mmes) == InOrder(i.mmes)[a.p := m.(nextStream := a.stream)]
    && !Used(InOrder(i.ues), a.ueId)
    && InOrder(i'.ues) == InsertAt(InOrder(i.ues), InsertPos(i.ues, AgainstId(a.ueId)), Ue(a.ueId, m.cnxId, a.stream))
  }

  /** What releasing a UE does to the instance: it leaves the tree, the others stay in order. */
  ghost predicate Released(i: Instance, id: uint24, i': Instance) {
    && i' == i.(ues := i'.ues)
    && exists p :: 0 <= p < |InOrder(i.ues)| && InOrder(i.ues)[p].id == id
         && InOrder(i'.ues) == InOrder(i.ues)[..p] + InOrder(i.ues)[p + 1..]
  }

  /** s1ap_eNB_handle_nas_first_req. `randoms` are the sums the random generator will deliver; the
      retry loop needs one with unused low bits among them. SCTP gives a usable association at
      least one stream. */
  method HandleNasFirstReq(e: EnbS1ap, k: nat, cause: Cause, gummei: Option<Gummei>, code: Option<uint8>, randoms: seq<nat>)
    returns (a: Option<Admission>)
    requires k < |e.instances| && SortedUes(InOrder(e.instances[k].ues))
    requires exists j: nat :: IsFirstUnused(randoms, InOrder(e.instances[k].ues), j)
    requires forall m :: m in InOrder(e.instances[k].mmes) && (m.state == CONNECTED || m.state == OVERLOAD) ==> m.outStreams > 0
    modifies e`instances
    ensures IsChainChoice(InOrder(old(e.instances[k]).mmes), cause, gummei, code, if a.Some? then Some(a.value.p) else None)
    ensures a.None? ==> e.instances == old(e.instances)
    ensures a.Some? ==>
              && |e.instances| == |old(e.instances)| && e.instances == old(e.instances)[k := e.instances[k]]
              && Admitted(old(e.instances[k]), a.value, e.instances[k]) && SortedUes(InOrder(e.instances[k].ues))
              && exists j: nat :: IsFirstUnused(randoms, InOrder(old(e.instances[k]).ues), j) && a.value.ueId == randoms[j] % TWO_24
  {
    var i := e.instances[k];
    var r := SelectForFirstRequest(InOrder(i.mmes), cause, gummei, code);
    if r.None? { return None; }
    ChoiceIsEligible(InOrder(i.mmes), cause, gummei, code, r);
    var m := InOrder(i.mmes)[r.value];
    assert m in InOrder(i.mmes);
    var id := DrawUeId(i.ues, randoms);
    var stream := NextStream(m.nextStream, m.outStreams);
    var u := Ue(id, m.cnxId, stream);
    InsertKeepsSortedUes(i.ues, u);
    var ues :| InOrder(ues) == InOrder(Insert(i.ues, u, AgainstId(id)));
    i := i.(ues := ues, mmes := Write(i.mmes, r.value, m.(nextStream := stream)));
    e.instances := e.instances[k := i];
    a := Some(Admission(r.value, id, stream));
  }

  /** The do-while loop that tries identifiers until an insertion does not collide. */
  method DrawUeId(ues: Tree<Ue>, randoms: seq<nat>) returns (id: uint24)
    requires SortedUes(InOrder(ues)) && exists j: nat :: IsFirstUnused(randoms, InOrder(ues), j)
    ensures exists j: nat :: IsFirstUnused(randoms, InOrder(ues), j) && id == randoms[j] % TWO_24
  {
    ghost var first: nat :| IsFirstUnused(randoms, InOrder(ues), first);
    var j := 0;
    while true
      invariant j <= first
      invariant forall n :: 0 <= n < j ==> Used(InOrder(ues), randoms[n] % TWO_24)
      decreases first - j
    {
      id := randoms[j] % TWO_24;
      CollidesIff(ues, id);
      if FindPos(ues, AgainstId(id)).None? {
        assert IsFirstUnused(randoms, InOrder(ues), j);
        return;
      }
      j := j + 1;
    }
  }

  /** s1ap_ue_context_release_complete: the UE with that identifier, if any, leaves the tree. */
  method ReleaseUe(e: EnbS1ap, k: nat, ueId: nat) returns (found: bool)
    requires k < |e.instances| && SortedUes(InOrder(e.instances[k].ues))
    modifies e`instances
    ensures found == Used(InOrder(old(e.instances[k]).ues), ueId % TWO_24)
    ensures !found ==> e.instances == old(e.instances)
    ensures found ==>
              && |e.instances| == |old(e.instances)|
              && e.instances == old(e.instances)[k := e.instances[k]]
              && Released(old(e.instances[k]), ueId % TWO_24, e.instances[k])
    ensures SortedUes(InOrder(e.instances[k].ues))
  {
    var i := e.instances[k];
    var id: uint24 := ueId % TWO_24;
    CollidesIff(i.ues, id);
    var p := FindPos(i.ues, AgainstId(id));
    found := p.Some?;
    if found {
      var left := InOrder(i.ues)[..p.value] + InOrder(i.ues)[p.value + 1..];
      assert InOrder(Spine(left)) == left;
      var ues :| InOrder(ues) == left;
      e.instances := e.instances[k := i.(ues := ues)];
    }
  }

  // ---------------------------------------------------------------- steps

  /** No UE comes or goes, and every MME keeps its connection id and its streams. */
  ghost predicate StreamsKept(i: Instance, i': Instance) {
    && i'.ues == i.ues && |InOrder(i'.mmes)| == |InOrder(i.mmes)|
    && forall p :: 0 <= p < |InOrder(i.mmes)| ==>
         && InOrder(i'.mmes)[p].cnxId == InOrder(i.mmes)[p].cnxId
         && InOrder(i'.mmes)[p].nextStream == InOrder(i.mmes)[p].nextStream
         && InOrder(i'.mmes)[p].outStreams == InOrder(i.mmes)[p].outStreams
  }

  /** Setup responses, setup failures and lost associations leave UEs and streams alone. */
  lemma SetupMessagesKeepStreams(i: Instance, p: nat, ev: S1SetupAccounting.Event)
    requires p < |InOrder(i.mmes)|
    requires (ev.SctpResp? && !ev.result.Established?) || ev.SetupResponse? || ev.SetupFailure?
    ensures StreamsKept(i, Apply(i, p, ev).i)
  {
    ApplyWrites(i, p, ev);
  }

  lemma RemoveKeepsSorted(s: seq<Ue>, p: nat)
    requires SortedUes(s) && p < |s|
    ensures SortedUes(s[..p] + s[p + 1..])
  {}

  lemma ReleaseKeepsSorted(i: Instance, id: uint24, i': Instance)
    requires SortedUes(InOrder(i.ues)) && Released(i, id, i')
    ensures SortedUes(InOrder(i'.ues))
  {
    var s := InOrder(i.ues);
    var p :| 0 <= p < |s| && s[p].id == id && InOrder(i'.ues) == s[..p] + s[p + 1..];
    RemoveKeepsSorted(s, p);
  }

  lemma AdmitKeepsSorted(i: Instance, a: Admission, i': Instance)
    requires SortedUes(InOrder(i.ues)) && Admitted(i, a, i')
    ensures SortedUes(InOrder(i'.ues))
  {
    InsertKeepsSortedUes(i.ues, Ue(a.ueId, InOrder(i.mmes)[a.p].cnxId, a.stream));
  }

  /** Admitting a UE leaves the S1 Setup accounts of its instance as they were. */
  lemma AdmissionKeepsAccounts(i: Instance, a: Admission, i': Instance, done: set<uint16>, joined: set<uint16>, last: uint16)
    requires InstInv(i, done, joined, last) && Admitted(i, a, i')
    ensures InstInv(i', done, joined, last)
  {
    var s := InOrder(i.mmes);
    var m := s[a.p].(nextStream := a.stream);
    CountUpdate(s, a.p, m, Awaiting(done));
    CountUpdate(s, a.p, m, IsConnected());
    WriteKeepsMmes(s, a.p, m, done, joined, last, done, joined);
  }

  // ---------------------------------------------------------------- advertised identities

  /** A GUMMEI made of the first PLMN, the first group and the first code of an advertised item. */
  predicate IsFirstOf(g: ServedGummei, id: Gummei) {
    && g.plmns != [] && g.plmns[0] == ServedPlmn(id.mcc, id.mnc)
    && g.groupIds != [] && g.groupIds[0] == id.groupId
    && g.codes != [] && g.codes[0] == id.code
  }

  /** Because the setup handler copies the first list entry over all others, a setup response makes
      its MME serve one more GUMMEI at most: whatever lists it advertises, the selection recognises
      afterwards what it recognised before and the GUMMEI made of the first entries. */
  lemma AdvertisedGummeiKnownIff(i: Instance, p: nat, ev: S1SetupAccounting.Event, id: Gummei)
    requires p < |InOrder(i.mmes)| && ev.SetupResponse? && |ev.served| == 1
    ensures |InOrder(Apply(i, p, ev).i.mmes)| == |InOrder(i.mmes)|
    ensures ServesGummei(InOrder(Apply(i, p, ev).i.mmes)[p], id)
            <==> ServesGummei(InOrder(i.mmes)[p], id) || IsFirstOf(ev.served[0], id)
  {
    var g, m := ev.served[0], InOrder(i.mmes)[p];
    var m' := InOrder(Apply(i, p, ev).i.mmes)[p];
    ApplyWrites(i, p, ev);
    assert m'.gummeis == m.gummeis + [Known(g)];
    CopiesHoldOnlyFirst(g.plmns, ServedPlmn(id.mcc, id.mnc));
    CopiesHoldOnlyFirst(g.groupIds, id.groupId);
    CopiesHoldOnlyFirst(g.codes, id.code);
    assert Known(g) in m'.gummeis;
    assert forall h :: h in m.gummeis ==> h in m'.gummeis;
  }

  lemma CopiesHoldOnlyFirst<T>(s: seq<T>, x: T)
    ensures x in CopiesOfFirst(s) <==> s != [] && s[0] == x
  {
    if s != [] { assert CopiesOfFirst(s)[0] == s[0]; }
  }
}
