/**
 S1 Setup answers are looked up by association id in trees sorted by connection id. When do they
 reach the MME they are about?
 */
module S1SetupLookups {
  import opened Common
  import opened SearchTree
  import opened EnbInstances
  import opened S1SetupAccounting
  import opened S1SetupLaws

  // ---------------------------------------------------------------- every balancing

  /** The same instances, their MME trees balanced in any other way. */
  ghost predicate Rebalanced(s: seq<Instance>, s': seq<Instance>) {
    && |s'| == |s|
    && forall k :: 0 <= k < |s| ==>
         s'[k] == s[k].(mmes := s'[k].mmes) && InOrder(s'[k].mmes) == InOrder(s[k].mmes)
  }

  ghost predicate AssocSeparates(s: seq<Mme>, p: nat)
    requires p < |s|
  {
    && (forall j :: 0 <= j < p ==> s[j].assocId < s[p].assocId)
    && (forall j :: p < j < |s| ==> s[j].assocId > s[p].assocId)
  }

  ghost predicate HasAssoc(i: Instance, a: int) {
    exists j :: 0 <= j < |InOrder(i.mmes)| && InOrder(i.mmes)[j].assocId == a
  }

  /** No earlier instance knows the association, and in its own the association ids are ordered
      around it as the connection ids are. */
  ghost predicate Reachable(s: seq<Instance>, k: nat, p: nat)
    requires k < |s| && p < |InOrder(s[k].mmes)|
  {
    && (forall l :: 0 <= l < k ==> !HasAssoc(s[l], InOrder(s[k].mmes)[p].assocId))
    && AssocSeparates(InOrder(s[k].mmes), p)
  }

  lemma {:induction false} GetMmeIsFirst(s: seq<Instance>, a: int, k: nat, p: nat)
    requires k < |s| && Lookup(s[k].mmes, a, 0) == Some(p)
    requires forall l :: 0 <= l < k ==> Lookup(s[l].mmes, a, 0).None?
    ensures GetMme(s, a, 0) == Some(Ref(k, p))
  {
    if k > 0 { GetMmeIsFirst(s[1..], a, k - 1, p); }
  }

  lemma {:induction false} GetMmeStopsBy(s: seq<Instance>, a: int, l: nat)
    requires l < |s| && Lookup(s[l].mmes, a, 0).Some?
    ensures GetMme(s, a, 0).Some? && GetMme(s, a, 0).value.k <= l
  {
    if Lookup(s[0].mmes, a, 0).None? { GetMmeStopsBy(s[1..], a, l - 1); }
  }

  ghost predicate AlwaysGets(s: seq<Instance>, a: int, k: nat, p: nat) {
    forall s' :: Rebalanced(s, s') ==> GetMme(s', a, 0) == Some(Ref(k, p))
  }

  lemma ReachableIsGot(s: seq<Instance>, k: nat, p: nat, s': seq<Instance>)
    requires k < |s| && p < |InOrder(s[k].mmes)| && Reachable(s, k, p) && Rebalanced(s, s')
    requires InOrder(s[k].mmes)[p].assocId != -1
    ensures GetMme(s', InOrder(s[k].mmes)[p].assocId, 0) == Some(Ref(k, p))
  {
    var a := InOrder(s[k].mmes)[p].assocId;
    AssocLookupExactIff(InOrder(s[k].mmes), p, 0);
    assert Lookup(s'[k].mmes, a, 0) == Some(p);
    forall l | 0 <= l < k ensures Lookup(s'[l].mmes, a, 0).None? {
      if Lookup(s'[l].mmes, a, 0).Some? { LookupSound(s'[l].mmes, a, 0); }
    }
    GetMmeIsFirst(s', a, k, p);
  }

  /** An earlier instance that knows the association can take the answer. */
  lemma EarlierCanTake(s: seq<Instance>, a: int, k: nat, p: nat, l: nat)
    requires l < k < |s| && HasAssoc(s[l], a) && a != -1
    ensures !AlwaysGets(s, a, k, p)
  {
    var c := InOrder(s[l].mmes);
    var j :| 0 <= j < |c| && c[j].assocId == a;
    var s' := s[l := s[l].(mmes := Rooted(c, j))];
    assert Compare(Probe(a, 0), c[j]) == 0;
    assert Lookup(s'[l].mmes, a, 0) == Some(j);
    GetMmeStopsBy(s', a, l);
    assert Rebalanced(s, s');
  }

  lemma UnorderedCanMiss(s: seq<Instance>, k: nat, p: nat)
    requires k < |s| && p < |InOrder(s[k].mmes)| && !AssocSeparates(InOrder(s[k].mmes), p)
    requires InOrder(s[k].mmes)[p].assocId != -1
    ensures !AlwaysGets(s, InOrder(s[k].mmes)[p].assocId, k, p)
  {
    var c := InOrder(s[k].mmes);
    AssocLookupExactIff(c, p, 0);
    var t: Tree<Mme> :| InOrder(t) == c && Lookup(t, c[p].assocId, 0) != Some(p);
    var s' := s[k := s[k].(mmes := t)];
    assert Rebalanced(s, s');
  }

  /** A lookup by association id over all instances gets the MME, however the trees are balanced,
      exactly when it is reachable. */
  lemma AlwaysGetsIff(s: seq<Instance>, k: nat, p: nat)
    requires k < |s| && p < |InOrder(s[k].mmes)| && InOrder(s[k].mmes)[p].assocId != -1
    ensures AlwaysGets(s, InOrder(s[k].mmes)[p].assocId, k, p) <==> Reachable(s, k, p)
  {
    var a := InOrder(s[k].mmes)[p].assocId;
    if Reachable(s, k, p) {
      forall s' | Rebalanced(s, s') ensures GetMme(s', a, 0) == Some(Ref(k, p)) { ReachableIsGot(s, k, p, s'); }
    } else if AssocSeparates(InOrder(s[k].mmes), p) {
      var l :| 0 <= l < k && HasAssoc(s[l], a);
      EarlierCanTake(s, a, k, p, l);
    } else {
      UnorderedCanMiss(s, k, p);
    }
  }

  // ---------------------------------------------------------------- responses in a run

  /** The response makes the MME at `p` of instance `k` connected and takes it off the pending ones. */
  ghost predicate Connects(w: World, ev: Event, k: nat, p: nat)
    requires ev.SetupResponse? && k < |w.instances| && p < |InOrder(w.instances[k].mmes)|
  {
    var r := Handle(w, ev);
    && r.out == Done && |r.w.instances| == |w.instances|
    && |InOrder(r.w.instances[k].mmes)| == |InOrder(w.instances[k].mmes)|
    && InOrder(r.w.instances[k].mmes)[p].state == CONNECTED
    && r.w.instances[k].pendingNb + 1 == w.instances[k].pendingNb
  }

  ghost predicate AlwaysConnects(w: World, ev: Event, k: nat, p: nat)
    requires ev.SetupResponse? && k < |w.instances| && p < |InOrder(w.instances[k].mmes)|
  {
    forall s' :: Rebalanced(w.instances, s') ==> Connects(w.(instances := s'), ev, k, p)
  }

  /** In one balancing: the response connects the MME exactly when its lookup gets it. */
  lemma ConnectsIff(w: World, ev: Event, k: nat, p: nat, done: set<uint16>, joined: set<uint16>, last: uint16)
    requires ev.SetupResponse? && ev.stream == 0 && |ev.served| == 1
    requires k < |w.instances| && InstInv(w.instances[k], done, joined, last)
    requires p < |InOrder(w.instances[k].mmes)| && InOrder(w.instances[k].mmes)[p].cnxId !in done
    ensures Connects(w, ev, k, p) <==> GetMme(w.instances, ev.assocId, 0) == Some(Ref(k, p))
  {
    var i := w.instances[k];
    var m := InOrder(i.mmes)[p];
    InstanceIsSmall(i, done, joined, last);
    OutcomeCounts(InOrder(i.mmes), p, m, done);
    assert m.state != CONNECTED && i.pendingNb > 0;
    var found := GetMme(w.instances, ev.assocId, 0);
    if found.Some? && found != Some(Ref(k, p)) {
      OthersStay(w, ev, found.value, k, p);
    }
  }

  lemma OthersStay(w: World, ev: Event, r: Ref, k: nat, p: nat)
    requires ev.SetupResponse? && |ev.served| == 1 && Target(w, ev) == Some(r) && r != Ref(k, p)
    requires k < |w.instances| && p < |InOrder(w.instances[k].mmes)|
    ensures var w' := Handle(w, ev).w;
      && |w'.instances| == |w.instances| && |InOrder(w'.instances[k].mmes)| == |InOrder(w.instances[k].mmes)|
      && InOrder(w'.instances[k].mmes)[p] == InOrder(w.instances[k].mmes)[p]
  {
    if r.k == k {
      ApplyWrites(w.instances[k], r.p, ev);
    }
  }

  /** In every run: the setup response of an associated MME without an outcome connects it, however
      the trees are balanced, exactly when no earlier instance has its association id and the
      association ids of its instance are ordered around it as the connection ids are. Otherwise
      there is a balancing in which the response is lost or taken for another's. */
  lemma EveryResponseConnectsIff(states: seq<Tracked>, events: seq<Event>, notices: seq<seq<Notice>>, outs: seq<Outcome>, n: nat,
                                 ev: Event, k: nat, p: nat)
    requires IsRun(states, events, notices, outs) && n < |states|
    requires k < |states[n].w.instances| && p < |InOrder(states[n].w.instances[k].mmes)|
    requires var m := InOrder(states[n].w.instances[k].mmes)[p];
      && ev.SetupResponse? && ev.stream == 0 && |ev.served| == 1 && ev.assocId == m.assocId
      && m.assocId != -1 && m.cnxId !in states[n].done
    ensures AlwaysConnects(states[n].w, ev, k, p) <==> Reachable(states[n].w.instances, k, p)
  {
    var t := states[n];
    var s := t.w.instances;
    EveryRunKeepsAccounts(states, events, notices, outs, n);
    AlwaysGetsIff(s, k, p);
    forall s' | Rebalanced(s, s')
      ensures Connects(t.w.(instances := s'), ev, k, p) <==> GetMme(s', ev.assocId, 0) == Some(Ref(k, p))
    {
      assert InstInv(s[k], t.done, t.joined, t.w.globalCnxId);
      ConnectsIff(t.w.(instances := s'), ev, k, p, t.done, t.joined, t.w.globalCnxId);
    }
  }

  // ---------------------------------------------------------------- a response that is lost

  const SOME_ENB := EnbConfig(0xe00, 0, 1, 208, 93, 2, 0)

  /** One instance with two MMEs, associated as given and awaiting their outcomes. */
  function TwoMmes(m1: Mme, m2: Mme): World {
    World(2, [Instance(0, SOME_ENB, Node(Leaf, m1, Node(Leaf, m2, Leaf)), Leaf, 2, 2, 0)])
  }

  function OneMme(m1: Mme): World {
    World(1, [Instance(0, SOME_ENB, Node(Leaf, m1, Leaf), Leaf, 1, 1, 0)])
  }

  function Joined(cnxId: uint16, a: int): Mme {
    NewMme(cnxId).(assocId := a, inStreams := 2, outStreams := 2)
  }

  lemma RegistersTwo(w: World)
    requires w == World(0, [NewInstanceOf(0, SOME_ENB)])
    ensures TrackedStep(START, NewInstance(0, SOME_ENB), Tracked(w, {}, {}), [], Done)
    ensures TrackedStep(Tracked(w, {}, {}), RegisterMme(0), Tracked(OneMme(NewMme(1)), {}, {}), [], Done)
    ensures TrackedStep(Tracked(OneMme(NewMme(1)), {}, {}), RegisterMme(0), Tracked(TwoMmes(NewMme(1), NewMme(2)), {}, {}), [], Done)
  {
    var m1, m2 := NewMme(1), NewMme(2);
    var t1 := Node(Leaf, m1, Leaf);
    assert InOrder(t1) == InOrder(Insert(Leaf, m1, Against(m1)));
    assert Insert(t1, m2, Against(m2)) == Node(Leaf, m1, Node(Leaf, m2, Leaf));
  }

  lemma FirstJoins()
    ensures TrackedStep(Tracked(TwoMmes(NewMme(1), NewMme(2)), {}, {}), SctpResp(0, 1, Established(20, 2, 2)),
                        Tracked(TwoMmes(Joined(1, 20), NewMme(2)), {}, {1}), [], Done)
  {
    var w := TwoMmes(NewMme(1), NewMme(2));
    assert Target(w, SctpResp(0, 1, Established(20, 2, 2))) == Some(Ref(0, 0));
  }

  lemma SecondJoins()
    ensures TrackedStep(Tracked(TwoMmes(Joined(1, 20), NewMme(2)), {}, {1}), SctpResp(0, 2, Established(10, 2, 2)),
                        Tracked(TwoMmes(Joined(1, 20), Joined(2, 10)), {}, {1, 2}), [], Done)
  {
    var w := TwoMmes(Joined(1, 20), NewMme(2));
    assert Target(w, SctpResp(0, 2, Established(10, 2, 2))) == Some(Ref(0, 1));
  }

  /** The response of the second MME is looked up on the first MME's left, where nothing is. */
  lemma ResponseMisses(ev: Event)
    requires ev.SetupResponse? && ev.assocId == 10
    ensures var t := Tracked(TwoMmes(Joined(1, 20), Joined(2, 10)), {}, {1, 2}); TrackedStep(t, ev, t, [], Done)
  {
    var w := TwoMmes(Joined(1, 20), Joined(2, 10));
    assert Lookup(w.instances[0].mmes, 10, 0) == None;
    assert w.instances[1..] == [];
  }

  /** A run as four sequences that end in state `t`. */
  datatype Run = Run(states: seq<Tracked>, events: seq<Event>, notices: seq<seq<Notice>>, outs: seq<Outcome>)

  ghost predicate RunTo(r: Run, t: Tracked) {
    IsRun(r.states, r.events, r.notices, r.outs) && r.states[|r.events|] == t
  }

  function Extended(r: Run, ev: Event, t: Tracked): Run {
    Run(r.states + [t], r.events + [ev], r.notices + [[]], r.outs + [Done])
  }

  lemma RunGrows(r: Run, t: Tracked, ev: Event, t': Tracked)
    requires RunTo(r, t) && TrackedStep(t, ev, t', [], Done)
    ensures RunTo(Extended(r, ev, t'), t')
  {}

  /** So a response can be lost: two registrations, two associations whose ids fall, and the
      response of the second MME. Nothing changes, and the MME stays among the pending ones. */
  lemma ResponseCanBeLost(served: ServedGummei) returns (r: Run, t: Tracked)
    ensures RunTo(r, t) && TrackedStep(t, SetupResponse(10, 0, 255, [served]), t, [], Done)
    ensures |t.w.instances| == 1 && InOrder(t.w.instances[0].mmes) == [Joined(1, 20), Joined(2, 10)]
    ensures t.w.instances[0].pendingNb == 2 && 2 !in t.done
  {
    var w := World(0, [NewInstanceOf(0, SOME_ENB)]);
    var t1, t2, t3 := Tracked(w, {}, {}), Tracked(OneMme(NewMme(1)), {}, {}), Tracked(TwoMmes(NewMme(1), NewMme(2)), {}, {});
    var t4 := Tracked(TwoMmes(Joined(1, 20), NewMme(2)), {}, {1});
    t := Tracked(TwoMmes(Joined(1, 20), Joined(2, 10)), {}, {1, 2});
    RegistersTwo(w);
    FirstJoins();
    SecondJoins();
    ResponseMisses(SetupResponse(10, 0, 255, [served]));
    r := Run([START], [], [], []);
    RunGrows(r, START, NewInstance(0, SOME_ENB), t1);
    r := Extended(r, NewInstance(0, SOME_ENB), t1);
    RunGrows(r, t1, RegisterMme(0), t2);
    r := Extended(r, RegisterMme(0), t2);
    RunGrows(r, t2, RegisterMme(0), t3);
    r := Extended(r, RegisterMme(0), t3);
    RunGrows(r, t3, SctpResp(0, 1, Established(20, 2, 2)), t4);
    r := Extended(r, SctpResp(0, 1, Established(20, 2, 2)), t4);
    RunGrows(r, t4, SctpResp(0, 2, Established(10, 2, 2)), t);
    r := Extended(r, SctpResp(0, 2, Established(10, 2, 2)), t);
  }
}
