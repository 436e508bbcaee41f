/** What the S1 Setup counters and notifications mean in every run. */
module S1SetupLaws {
  import opened Common
  import opened SearchTree
  import opened EnbInstances
  import opened Counting
  import opened S1SetupAccounting

  /** A world together with its history: the connection ids whose setup has had an outcome, and
      those whose association has come up. */
  datatype Tracked = Tracked(w: World, done: set<uint16>, joined: set<uint16>)

  const START := Tracked(EMPTY_WORLD, {}, {})

  /** The connection whose setup an event decides. An answer whose lookup finds no descriptor decides
      nothing: its MME goes on awaiting an outcome. */
  function OutcomeOf(w: World, ev: Event): Option<uint16> {
    match ev
    case SctpResp(_, cnxId, Unsuccessful) => Some(cnxId)
    case SetupResponse(_, _, _, _) => CnxOfTarget(w, ev)
    case SetupFailure(_) => CnxOfTarget(w, ev)
    case _ => None
  }

  function CnxOfTarget(w: World, ev: Event): Option<uint16>
    requires ev.SctpResp? || ev.SetupResponse? || ev.SetupFailure?
  {
    match Target(w, ev)
    case None => None
    case Some(r) => Some(TargetMme(w, r).cnxId)
  }

  function AddIf(s: set<uint16>, c: Option<uint16>): set<uint16> {
    if c.Some? then s + {c.value} else s
  }

  function JoinOf(ev: Event): Option<uint16> {
    match ev
    case SctpResp(_, cnxId, Established(_, _, _)) => Some(cnxId)
    case _ => None
  }

  /** What the environment owes: fewer than 65536 registrations, SCTP answers about registered
      connections, at most one successful association and at most one setup outcome each, an
      unchanged configuration when an eNB registers again, and one served GUMMEI item a response. */
  ghost predicate Allowed(t: Tracked, ev: Event) {
    && (ev.RegisterMme? ==> t.w.globalCnxId + 1 < TWO_16)
    && (ev.NewInstance? ==> forall i :: i in t.w.instances && i.id == ev.id ==> i.config == ev.config)
    && (ev.SetupResponse? && Target(t.w, ev).Some? ==> |ev.served| == 1)
    && (ev.SctpResp? ==> Target(t.w, ev).Some?)
    && (OutcomeOf(t.w, ev).Some? ==> OutcomeOf(t.w, ev).value !in t.done)
    && (JoinOf(ev).Some? ==> JoinOf(ev).value !in t.joined)
  }

  ghost predicate TrackedStep(t: Tracked, ev: Event, t': Tracked, notices: seq<Notice>, out: Outcome) {
    && Allowed(t, ev) && Step(t.w, ev, t'.w, notices, out)
    && t'.done == AddIf(t.done, OutcomeOf(t.w, ev)) && t'.joined == AddIf(t.joined, JoinOf(ev))
  }

  // ---------------------------------------------------------------- the invariant of one instance

  function Awaiting(done: set<uint16>): Mme -> bool {
    (m: Mme) => m.cnxId !in done
  }

  function IsConnected(): Mme -> bool {
    (m: Mme) => m.state == CONNECTED
  }

  /** MMEs of an instance without a setup outcome so far, and MMEs connected now. */
  function NbAwaiting(i: Instance, done: set<uint16>): nat {
    Count(InOrder(i.mmes), Awaiting(done))
  }

  function NbConnected(i: Instance): nat {
    Count(InOrder(i.mmes), IsConnected())
  }

  ghost predicate MmesInv(s: seq<Mme>, done: set<uint16>, joined: set<uint16>, last: uint16) {
    && SortedByCnx(s)
    && (forall j :: 0 <= j < |s| ==> 1 <= s[j].cnxId <= last)
    && (forall j :: 0 <= j < |s| && s[j].state == CONNECTED ==> s[j].cnxId in done && s[j].assocId != -1)
    && (forall j :: 0 <= j < |s| && s[j].assocId != -1 ==> s[j].cnxId in joined)
  }

  ghost predicate InstInv(i: Instance, done: set<uint16>, joined: set<uint16>, last: uint16) {
    && MmesInv(InOrder(i.mmes), done, joined, last)
    && i.pendingNb == NbAwaiting(i, done)
    && i.associatedNb == NbConnected(i)
    && i.mmeNb == |InOrder(i.mmes)|
  }

  ghost predicate Has(i: Instance, c: uint16) {
    exists j :: 0 <= j < |InOrder(i.mmes)| && InOrder(i.mmes)[j].cnxId == c
  }

  ghost predicate AllInstInv(s: seq<Instance>, done: set<uint16>, joined: set<uint16>, last: uint16) {
    forall k :: 0 <= k < |s| ==> InstInv(s[k], done, joined, last)
  }

  ghost predicate Inv(t: Tracked) {
    && AllInstInv(t.w.instances, t.done, t.joined, t.w.globalCnxId)
    && (forall c :: c in t.done || c in t.joined ==> 1 <= c <= t.w.globalCnxId)
    && Disjoint(t.w.instances)
  }

  /** No connection id is in two instances. */
  ghost predicate Disjoint(s: seq<Instance>) {
    forall k, l, c :: 0 <= k < l < |s| && Has(s[k], c) ==> !Has(s[l], c)
  }

  lemma {:induction false} CnxAbovePosition(s: seq<Mme>, done: set<uint16>, joined: set<uint16>, last: uint16, j: nat)
    requires MmesInv(s, done, joined, last) && j < |s|
    ensures s[j].cnxId >= j + 1
  {
    if j > 0 { CnxAbovePosition(s, done, joined, last, j - 1); }
  }

  lemma InstanceIsSmall(i: Instance, done: set<uint16>, joined: set<uint16>, last: uint16)
    requires InstInv(i, done, joined, last)
    ensures |InOrder(i.mmes)| <= last
  {
    var s := InOrder(i.mmes);
    if s != [] { CnxAbovePosition(s, done, joined, last, |s| - 1); }
  }

  // ---------------------------------------------------------------- steps of one instance

  /** The descriptor a message was about, afterwards. */
  function AfterMessage(m: Mme, ev: Event): Mme {
    match ev
    case SctpResp(_, _, Established(a, ins, outs)) => m.(assocId := a, inStreams := ins, outStreams := outs, state := WAITING)
    case SctpResp(_, _, Shutdown) => if m.state == CONNECTED then m.(state := DISCONNECTED) else m
    case SetupResponse(_, _, capacity, served) =>
      if |served| != 1 then m
      else m.(gummeis := m.gummeis + [Known(served[0])], capacity := capacity, state := CONNECTED)
    case SetupFailure(_) => m.(state := WAITING)
    case _ => m
  }

  /** A message writes its descriptor and no other, and the fields that are not accounts stay. */
  lemma ApplyWrites(i: Instance, p: nat, ev: Event)
    requires p < |InOrder(i.mmes)| && (ev.SctpResp? || ev.SetupResponse? || ev.SetupFailure?)
    ensures InOrder(Apply(i, p, ev).i.mmes) == InOrder(i.mmes)[p := AfterMessage(InOrder(i.mmes)[p], ev)]
    ensures Apply(i, p, ev).i.ues == i.ues
  {
    match ev
    case SctpResp(_, _, result) => match result { case Established(_, _, _) => case Shutdown => case Unsuccessful => }
    case SetupResponse(_, _, _, _) =>
    case SetupFailure(_) =>
  }

  /** Nothing changes for an instance that does not hold the connections concerned. */
  lemma BystanderKeepsInv(i: Instance, done: set<uint16>, joined: set<uint16>, last: uint16, done': set<uint16>, joined': set<uint16>, last': uint16)
    requires InstInv(i, done, joined, last) && last <= last' && done <= done' && joined <= joined'
    requires forall c :: c in done' && c !in done ==> !Has(i, c)
    ensures InstInv(i, done', joined', last')
  {
    CountAgrees(InOrder(i.mmes), Awaiting(done), Awaiting(done'));
  }

  lemma NewestKeepsMmes(s: seq<Mme>, done: set<uint16>, joined: set<uint16>, last: uint16)
    requires MmesInv(s, done, joined, last) && last + 1 < TWO_16
    ensures MmesInv(s + [NewMme(last + 1)], done, joined, last + 1)
  {}

  /** An instance after a registration, its tree left balanced as `t`. */
  function Grown(i: Instance, t: Tree<Mme>): Instance {
    i.(mmes := t, mmeNb := Inc32(i.mmeNb), pendingNb := Inc32(i.pendingNb))
  }

  lemma GrownKeepsInstInv(i: Instance, done: set<uint16>, joined: set<uint16>, last: uint16, t: Tree<Mme>)
    requires InstInv(i, done, joined, last) && last + 1 < TWO_16 && last + 1 !in done
    requires InOrder(t) == InOrder(i.mmes) + [NewMme(last + 1)]
    ensures InstInv(Grown(i, t), done, joined, last + 1)
  {
    InstanceIsSmall(i, done, joined, last);
    NewestCounts(InOrder(i.mmes), done, joined, last);
  }

  lemma NewestCounts(s: seq<Mme>, done: set<uint16>, joined: set<uint16>, last: uint16)
    requires MmesInv(s, done, joined, last) && last + 1 < TWO_16 && last + 1 !in done
    ensures MmesInv(s + [NewMme(last + 1)], done, joined, last + 1)
    ensures Count(s + [NewMme(last + 1)], Awaiting(done)) == Count(s, Awaiting(done)) + 1
    ensures Count(s + [NewMme(last + 1)], IsConnected()) == Count(s, IsConnected())
  {
    NewestKeepsMmes(s, done, joined, last);
    CountAppend(s, NewMme(last + 1), Awaiting(done));
    CountAppend(s, NewMme(last + 1), IsConnected());
  }

  /** An outcome for connection `c` takes one from the awaiting MMEs. */
  lemma OutcomeCounts(s: seq<Mme>, p: nat, m: Mme, done: set<uint16>)
    requires SortedByCnx(s) && p < |s| && m.cnxId == s[p].cnxId && m.cnxId !in done
    ensures Count(s[p := m], Awaiting(done + {m.cnxId})) + 1 == Count(s, Awaiting(done))
    ensures Count(s[p := m], IsConnected()) + One(s[p].state == CONNECTED) == Count(s, IsConnected()) + One(m.state == CONNECTED)
  {
    CountUpdate(s, p, m, Awaiting(done));
    CountDiffersAt(s[p := m], p, Awaiting(done), Awaiting(done + {m.cnxId}));
    CountUpdate(s, p, m, IsConnected());
  }

  lemma WriteKeepsMmes(s: seq<Mme>, p: nat, m: Mme, done: set<uint16>, joined: set<uint16>, last: uint16, done': set<uint16>, joined': set<uint16>)
    requires MmesInv(s, done, joined, last) && p < |s| && m.cnxId == s[p].cnxId
    requires done <= done' && joined <= joined'
    requires m.state == CONNECTED ==> m.cnxId in done' && m.assocId != -1
    requires m.assocId != -1 ==> m.cnxId in joined'
    ensures MmesInv(s[p := m], done', joined', last)
  {}

  /** An outcome event on a descriptor without an outcome: the pending check holds, the counters
      follow, and the confirmation goes out exactly when no MME awaits an outcome any more. */
  lemma OutcomeKeepsInv(i: Instance, p: nat, ev: Event, done: set<uint16>, joined: set<uint16>, last: uint16)
    requires InstInv(i, done, joined, last) && p < |InOrder(i.mmes)| && InOrder(i.mmes)[p].cnxId !in done
    requires (ev.SctpResp? && ev.result.Unsuccessful?) || ev.SetupResponse? || ev.SetupFailure?
    requires ev.SetupResponse? ==> InOrder(i.mmes)[p].assocId != -1 && |ev.served| == 1
    ensures var r, done' := Apply(i, p, ev), done + {InOrder(i.mmes)[p].cnxId};
      && r.out == Done && InstInv(r.i, done', joined, last)
      && r.notices == if NbAwaiting(r.i, done') == 0 then [RegisterCnf(i.id, NbConnected(r.i))] else []
  {
    var s, m' := InOrder(i.mmes), AfterMessage(InOrder(i.mmes)[p], ev);
    InstanceIsSmall(i, done, joined, last);
    ApplyWrites(i, p, ev);
    OutcomeCounts(s, p, m', done);
    WriteKeepsMmes(s, p, m', done, joined, last, done + {m'.cnxId}, joined);
  }

  lemma JoinKeepsInv(i: Instance, p: nat, ev: Event, done: set<uint16>, joined: set<uint16>, last: uint16)
    requires InstInv(i, done, joined, last) && p < |InOrder(i.mmes)| && InOrder(i.mmes)[p].cnxId !in joined
    requires ev.SctpResp? && ev.result.Established?
    ensures var r := Apply(i, p, ev);
      r.out == Done && r.notices == [] && InstInv(r.i, done, joined + {InOrder(i.mmes)[p].cnxId}, last)
  {
    var s := InOrder(i.mmes);
    var m' := InOrder(Apply(i, p, ev).i.mmes)[p];
    CountUpdate(s, p, m', Awaiting(done));
    CountUpdate(s, p, m', IsConnected());
    WriteKeepsMmes(s, p, m', done, joined, last, done, joined + {s[p].cnxId});
  }

  /** A lost association: the application hears of it exactly when it was the last connected one. */
  lemma ShutdownKeepsInv(i: Instance, p: nat, ev: Event, done: set<uint16>, joined: set<uint16>, last: uint16)
    requires InstInv(i, done, joined, last) && p < |InOrder(i.mmes)|
    requires ev.SctpResp? && ev.result.Shutdown?
    ensures var r := Apply(i, p, ev);
      && r.out == Done && InstInv(r.i, done, joined, last)
      && NbConnected(r.i) == NbConnected(i) - One(InOrder(i.mmes)[p].state == CONNECTED)
      && r.notices == if NbConnected(i) > 0 && NbConnected(r.i) == 0 then [Deregistered(i.id)] else []
  {
    var s := InOrder(i.mmes);
    if s[p].state == CONNECTED {
      var m' := s[p].(state := DISCONNECTED);
      CountUpdate(s, p, m', Awaiting(done));
      CountUpdate(s, p, m', IsConnected());
      WriteKeepsMmes(s, p, m', done, joined, last, done, joined);
    }
  }

  // ---------------------------------------------------------------- steps of the whole eNB

  /** Replacing instance `k` by one with the same connections. */
  lemma ReplaceKeepsInv(t: Tracked, k: nat, i: Instance, done': set<uint16>, joined': set<uint16>)
    requires Inv(t) && k < |t.w.instances| && t.done <= done' && t.joined <= joined'
    requires InstInv(i, done', joined', t.w.globalCnxId)
    requires forall c :: Has(i, c) <==> Has(t.w.instances[k], c)
    requires forall c :: c in done' && c !in t.done ==> Has(t.w.instances[k], c)
    requires forall c :: c in joined' && c !in t.joined ==> Has(t.w.instances[k], c)
    ensures Inv(Tracked(t.w.(instances := t.w.instances[k := i]), done', joined'))
  {
    forall l | 0 <= l < |t.w.instances| && l != k
      ensures InstInv(t.w.instances[l], done', joined', t.w.globalCnxId)
    {
      BystanderKeepsInv(t.w.instances[l], t.done, t.joined, t.w.globalCnxId, done', joined', t.w.globalCnxId);
    }
    var s := InOrder(t.w.instances[k].mmes);
    assert forall j :: 0 <= j < |s| ==> 1 <= s[j].cnxId <= t.w.globalCnxId;
  }

  lemma ApplyKeepsConnections(i: Instance, p: nat, ev: Event, c: uint16)
    requires p < |InOrder(i.mmes)| && (ev.SctpResp? || ev.SetupResponse? || ev.SetupFailure?)
    ensures Has(Apply(i, p, ev).i, c) <==> Has(i, c)
  {
    var s, s' := InOrder(i.mmes), InOrder(Apply(i, p, ev).i.mmes);
    ApplyWrites(i, p, ev);
    assert |s'| == |s| && forall j :: 0 <= j < |s| ==> s'[j].cnxId == s[j].cnxId;
    if Has(i, c) { var j :| 0 <= j < |s| && s[j].cnxId == c; assert s'[j].cnxId == c; }
    if Has(Apply(i, p, ev).i, c) { var j :| 0 <= j < |s'| && s'[j].cnxId == c; assert s[j].cnxId == c; }
  }

  /** From instance `i` to `i'`: a setup outcome is confirmed exactly when no MME awaits an outcome
      any more, with the number of connected ones, and a lost association is reported exactly
      when it was the last connected one. */
  ghost predicate NoticesFit(i: Instance, i': Instance, done': set<uint16>, ev: Event, outcome: bool, notices: seq<Notice>) {
    if outcome then
      notices == if NbAwaiting(i', done') == 0 then [RegisterCnf(i.id, NbConnected(i'))] else []
    else if ev.SctpResp? && ev.result.Shutdown? then
      notices == if NbConnected(i) > 0 && NbConnected(i') == 0 then [Deregistered(i.id)] else []
    else notices == []
  }

  /** What a message step tells the application. */
  ghost predicate NoticesExact(t: Tracked, ev: Event, t': Tracked, notices: seq<Notice>)
    requires ev.SctpResp? || ev.SetupResponse? || ev.SetupFailure?
    requires |t'.w.instances| == |t.w.instances|
  {
    match Target(t.w, ev)
    case None => notices == [] && t' == t
    case Some(r) =>
      NoticesFit(t.w.instances[r.k], t'.w.instances[r.k], t'.done, ev, OutcomeOf(t.w, ev).Some?, notices)
  }

  /** The descriptor a message finds carries the key the message named. */
  lemma TargetSound(w: World, ev: Event)
    requires ev.SctpResp? || ev.SetupResponse? || ev.SetupFailure?
    requires Target(w, ev).Some?
    ensures var m := TargetMme(w, Target(w, ev).value);
      if ev.SctpResp? then m.cnxId == ev.cnxId
      else if ev.assocId == -1 then m.cnxId == 0 else m.assocId == ev.assocId
  {
    var r := Target(w, ev).value;
    if ev.SctpResp? {
      LookupSound(w.instances[r.k].mmes, -1, ev.cnxId);
    } else {
      LookupSound(w.instances[r.k].mmes, ev.assocId, 0);
    }
  }

  lemma MessageOnInstance(t: Tracked, ev: Event, r: Ref)
    requires ev.SctpResp? || ev.SetupResponse? || ev.SetupFailure?
    requires Inv(t) && Allowed(t, ev) && Target(t.w, ev) == Some(r)
    ensures var i := t.w.instances[r.k];
      var reply, done' := Apply(i, r.p, ev), AddIf(t.done, OutcomeOf(t.w, ev));
      && reply.out == Done
      && InstInv(reply.i, done', AddIf(t.joined, JoinOf(ev)), t.w.globalCnxId)
      && NoticesFit(i, reply.i, done', ev, OutcomeOf(t.w, ev).Some?, reply.notices)
      && (OutcomeOf(t.w, ev).Some? ==> OutcomeOf(t.w, ev).value == TargetMme(t.w, r).cnxId)
      && (JoinOf(ev).Some? ==> JoinOf(ev).value == TargetMme(t.w, r).cnxId)
  {
    var i := t.w.instances[r.k];
    TargetSound(t.w, ev);
    assert InstInv(i, t.done, t.joined, t.w.globalCnxId);
    if OutcomeOf(t.w, ev).Some? {
      OutcomeKeepsInv(i, r.p, ev, t.done, t.joined, t.w.globalCnxId);
    } else if ev.result.Established? {
      JoinKeepsInv(i, r.p, ev, t.done, t.joined, t.w.globalCnxId);
    } else {
      ShutdownKeepsInv(i, r.p, ev, t.done, t.joined, t.w.globalCnxId);
    }
  }

  lemma ApplyKeepsAllConnections(i: Instance, p: nat, ev: Event)
    requires p < |InOrder(i.mmes)|
    requires ev.SctpResp? || ev.SetupResponse? || ev.SetupFailure?
    ensures forall c :: Has(Apply(i, p, ev).i, c) <==> Has(i, c)
  {
    forall c ensures Has(Apply(i, p, ev).i, c) <==> Has(i, c) { ApplyKeepsConnections(i, p, ev, c); }
  }

  lemma MessageKeepsInv(t: Tracked, ev: Event, t': Tracked, notices: seq<Notice>, out: Outcome)
    requires Inv(t) && TrackedStep(t, ev, t', notices, out)
    requires ev.SctpResp? || ev.SetupResponse? || ev.SetupFailure?
    ensures Inv(t') && out == Done && |t'.w.instances| == |t.w.instances| && NoticesExact(t, ev, t', notices)
  {
    if Target(t.w, ev).Some? {
      var r := Target(t.w, ev).value;
      var i := t.w.instances[r.k];
      MessageOnInstance(t, ev, r);
      assert Has(i, InOrder(i.mmes)[r.p].cnxId);
      ApplyKeepsAllConnections(i, r.p, ev);
      ReplaceKeepsInv(t, r.k, Apply(i, r.p, ev).i, t'.done, t'.joined);
    }
  }

  lemma NewestConnection(i: Instance, i': Instance, m: Mme)
    requires InOrder(i'.mmes) == InOrder(i.mmes) + [m]
    ensures forall d :: Has(i', d) <==> Has(i, d) || d == m.cnxId
  {
    var s, s' := InOrder(i.mmes), InOrder(i'.mmes);
    assert s'[|s|].cnxId == m.cnxId;
    forall d | Has(i, d) ensures Has(i', d) {
      var j :| 0 <= j < |s| && s[j].cnxId == d;
      assert s'[j].cnxId == d;
    }
  }

  /** A connection id above the last one issued is new everywhere. */
  lemma NextIsNew(t: Tracked)
    requires Inv(t) && t.w.globalCnxId + 1 < TWO_16
    ensures t.w.globalCnxId + 1 !in t.done
    ensures forall l :: 0 <= l < |t.w.instances| ==> !Has(t.w.instances[l], t.w.globalCnxId + 1)
  {
    forall l | 0 <= l < |t.w.instances| ensures !Has(t.w.instances[l], t.w.globalCnxId + 1) {
      assert InstInv(t.w.instances[l], t.done, t.joined, t.w.globalCnxId);
    }
  }

  lemma StillDisjoint(s: seq<Instance>, k: nat, i: Instance, c: uint16)
    requires Disjoint(s) && k < |s|
    requires forall d :: Has(i, d) <==> Has(s[k], d) || d == c
    requires forall l :: 0 <= l < |s| ==> !Has(s[l], c)
    ensures Disjoint(s[k := i])
  {}

  lemma GrownKeepsInv(t: Tracked, k: nat, i: Instance)
    requires Inv(t) && t.w.globalCnxId + 1 < TWO_16 && k < |t.w.instances|
    requires InstInv(i, t.done, t.joined, t.w.globalCnxId + 1)
    requires forall d :: Has(i, d) <==> Has(t.w.instances[k], d) || d == t.w.globalCnxId + 1
    ensures Inv(t.(w := World(t.w.globalCnxId + 1, t.w.instances[k := i])))
  {
    var last, s := t.w.globalCnxId, t.w.instances;
    var s' := s[k := i];
    NextIsNew(t);
    StillDisjoint(s, k, i, last + 1);
    forall l | 0 <= l < |s'| ensures InstInv(s'[l], t.done, t.joined, last + 1) {
      if l != k { BystanderKeepsInv(s[l], t.done, t.joined, last, t.done, t.joined, last + 1); }
    }
  }

  lemma RegistrationKeepsInv(t: Tracked, k: nat, t': Tracked)
    requires Inv(t) && TrackedStep(t, RegisterMme(k), t', [], Done)
    ensures Inv(t')
  {
    var i, m, tree := t.w.instances[k], NewMme(t.w.globalCnxId + 1), t'.w.instances[k].mmes;
    assert t' == t.(w := World(t.w.globalCnxId + 1, t.w.instances[k := Grown(i, tree)]));
    assert InstInv(i, t.done, t.joined, t.w.globalCnxId);
    NextIsNew(t);
    NewestIsLast(i.mmes, m);
    GrownKeepsInstInv(i, t.done, t.joined, t.w.globalCnxId, tree);
    NewestConnection(i, Grown(i, tree), m);
    GrownKeepsInv(t, k, Grown(i, tree));
  }

  lemma StepKeepsInv(t: Tracked, ev: Event, t': Tracked, notices: seq<Notice>, out: Outcome)
    requires Inv(t) && TrackedStep(t, ev, t', notices, out)
    ensures Inv(t') && out == Done
  {
    match ev
    case NewInstance(id, config) => assert InOrder(NewInstanceOf(id, config).mmes) == [];
    case RegisterMme(k) => RegistrationKeepsInv(t, k, t');
    case _ => MessageKeepsInv(t, ev, t', notices, out);
  }

  // ---------------------------------------------------------------- every run

  ghost predicate IsRun(states: seq<Tracked>, events: seq<Event>, notices: seq<seq<Notice>>, outs: seq<Outcome>) {
    && |states| == |events| + 1 && |notices| == |outs| == |events| && states[0] == START
    && forall i :: 0 <= i < |events| ==> TrackedStep(states[i], events[i], states[i + 1], notices[i], outs[i])
  }

  /** Over every run: the pending counter is the number of MMEs without an outcome, the associated
      counter the number of connected ones, and no check of the handlers ever fails. */
  lemma {:induction false} EveryRunKeepsAccounts(states: seq<Tracked>, events: seq<Event>, notices: seq<seq<Notice>>, outs: seq<Outcome>, n: nat)
    requires IsRun(states, events, notices, outs) && n < |states|
    ensures Inv(states[n])
    ensures forall k :: 0 <= k < |states[n].w.instances| ==>
              var i := states[n].w.instances[k];
              i.pendingNb == NbAwaiting(i, states[n].done) && i.associatedNb == NbConnected(i)
    ensures forall j :: 0 <= j < n ==> outs[j] == Done
  {
    if n > 0 {
      EveryRunKeepsAccounts(states, events, notices, outs, n - 1);
      assert TrackedStep(states[n - 1], events[n - 1], states[n], notices[n - 1], outs[n - 1]);
      StepKeepsInv(states[n - 1], events[n - 1], states[n], notices[n - 1], outs[n - 1]);
    }
  }

  /** Over every run: a message tells the application that setup is complete exactly when its
      instance has no MME left without an outcome, with the number of connected MMEs, and that
      the eNB is cut off exactly when the last connected MME is lost. Registrations say nothing. */
  lemma EveryNoticeIsExact(states: seq<Tracked>, events: seq<Event>, notices: seq<seq<Notice>>, outs: seq<Outcome>, n: nat)
    requires IsRun(states, events, notices, outs) && n < |events|
    ensures |states[n + 1].w.instances| >= |states[n].w.instances|
    ensures var ev := events[n];
      if ev.NewInstance? || ev.RegisterMme? then notices[n] == []
      else |states[n + 1].w.instances| == |states[n].w.instances| && NoticesExact(states[n], ev, states[n + 1], notices[n])
  {
    EveryRunKeepsAccounts(states, events, notices, outs, n);
    var ev := events[n];
    assert TrackedStep(states[n], ev, states[n + 1], notices[n], outs[n]);
    if !(ev.NewInstance? || ev.RegisterMme?) {
      MessageKeepsInv(states[n], ev, states[n + 1], notices[n], outs[n]);
    }
  }

  /** Over every run: a registered connection id is found in its instance's tree however it is
      balanced, although association ids are written into the nodes. */
  lemma CnxLookupsAreExact(states: seq<Tracked>, events: seq<Event>, notices: seq<seq<Notice>>, outs: seq<Outcome>, n: nat, k: nat, cnxId: uint16, p: nat)
    requires IsRun(states, events, notices, outs) && n < |states| && k < |states[n].w.instances|
    ensures var t := states[n].w.instances[k].mmes;
      Lookup(t, -1, cnxId) == Some(p) <==> p < |InOrder(t)| && InOrder(t)[p].cnxId == cnxId
  {
    EveryRunKeepsAccounts(states, events, notices, outs, n);
    CnxLookupExact(states[n].w.instances[k].mmes, cnxId, p);
  }

  ghost predicate AllDone(s: seq<Mme>, done: set<uint16>) {
    forall m :: m in s ==> m.cnxId in done
  }

  lemma NoneAwaitingIff(s: seq<Mme>, done: set<uint16>)
    ensures Count(s, Awaiting(done)) == 0 <==> AllDone(s, done)
  {
    CountZero(s, Awaiting(done));
    assert forall j :: 0 <= j < |s| ==> (Awaiting(done)(s[j]) <==> s[j].cnxId !in done);
  }

  /** In a state of a run, the pending check would fail on an outcome exactly when every MME of
      the instance has had its outcome already. */
  lemma PendingCheckFailsIff(t: Tracked, k: nat)
    requires Inv(t) && k < |t.w.instances|
    ensures t.w.instances[k].pendingNb == 0 <==> AllDone(InOrder(t.w.instances[k].mmes), t.done)
  {
    assert InstInv(t.w.instances[k], t.done, t.joined, t.w.globalCnxId);
    NoneAwaitingIff(InOrder(t.w.instances[k].mmes), t.done);
  }

  /** A response on a stream other than 0 is ignored: eNB, history and application see nothing of it. */
  lemma OtherStreamIsIgnored(t: Tracked, ev: Event, t': Tracked, notices: seq<Notice>, out: Outcome)
    requires TrackedStep(t, ev, t', notices, out) && ev.SetupResponse? && ev.stream != 0
    ensures t' == t && notices == [] && out == Done
  {}
}
