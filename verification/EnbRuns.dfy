/**
 The whole eNB at work: MMEs register, come up, answer and are lost while UEs are admitted and
 released, in any order.
 */
module EnbRuns {
  import opened Common
  import opened SearchTree
  import opened EnbInstances
  import opened S1SetupAccounting
  import opened S1SetupLaws
  import opened UeAdmission

  /** The state of the eNB with its history: for each connection id, how many UEs its MME was given. */
  datatype Enb = Enb(t: Tracked, given: map<uint16, nat>)

  const IDLE := Enb(START, map[])

  datatype EnbEvent =
    | Setup(ev: Event)
    | Admit(k: nat, a: Admission)
    | Release(k: nat, id: uint24)

  function Given(given: map<uint16, nat>, c: uint16): nat {
    if c in given then given[c] else 0
  }

  function WithInstance(t: Tracked, k: nat, i: Instance): Tracked
    requires k < |t.w.instances|
  {
    t.(w := t.w.(instances := t.w.instances[k := i]))
  }

  /** The connection of the MME an admission is for. */
  function CnxOf(t: Tracked, k: nat, p: nat): uint16
    requires k < |t.w.instances| && p < |InOrder(t.w.instances[k].mmes)|
  {
    InOrder(t.w.instances[k].mmes)[p].cnxId
  }

  ghost predicate EnbStep(s: Enb, ev: EnbEvent, s': Enb, notices: seq<Notice>, out: Outcome) {
    match ev
    case Setup(e) => TrackedStep(s.t, e, s'.t, notices, out) && s'.given == s.given
    case Admit(k, a) =>
      && notices == [] && out == Done && k < |s.t.w.instances| == |s'.t.w.instances|
      && Admitted(s.t.w.instances[k], a, s'.t.w.instances[k])
      && s'.t == WithInstance(s.t, k, s'.t.w.instances[k])
      && var c := CnxOf(s.t, k, a.p); s'.given == s.given[c := Given(s.given, c) + 1]
    case Release(k, id) =>
      && notices == [] && out == Done && k < |s.t.w.instances| == |s'.t.w.instances|
      && Released(s.t.w.instances[k], id, s'.t.w.instances[k])
      && s'.t == WithInstance(s.t, k, s'.t.w.instances[k]) && s'.given == s.given
  }

  // ---------------------------------------------------------------- the invariant

  /** An MME stands at the stream of the last UE it was given; before its association is up it has no
      streams and no UEs. */
  ghost predicate InTurn(m: Mme, given: map<uint16, nat>, joined: set<uint16>) {
    && (m.outStreams > 0 ==> m.cnxId in joined)
    && (Given(given, m.cnxId) > 0 ==> m.outStreams > 0)
    && m.nextStream == if m.outStreams > 0 then StreamOf(Given(given, m.cnxId), m.outStreams) else 0
  }

  ghost predicate AllInTurn(i: Instance, given: map<uint16, nat>, joined: set<uint16>) {
    && SortedUes(InOrder(i.ues))
    && forall p :: 0 <= p < |InOrder(i.mmes)| ==> InTurn(InOrder(i.mmes)[p], given, joined)
  }

  ghost predicate TurnsKept(s: Enb) {
    && (forall k :: 0 <= k < |s.t.w.instances| ==> AllInTurn(s.t.w.instances[k], s.given, s.t.joined))
    && (forall c :: Given(s.given, c) > 0 ==> c in s.t.joined)
  }

  ghost predicate EnbInv(s: Enb) {
    Inv(s.t) && TurnsKept(s)
  }

  // ---------------------------------------------------------------- steps keep it

  lemma MoreJoined(i: Instance, given: map<uint16, nat>, joined: set<uint16>, joined': set<uint16>)
    requires AllInTurn(i, given, joined) && joined <= joined'
    ensures AllInTurn(i, given, joined')
  {}

  lemma KeptStreamsStayInTurn(i: Instance, i': Instance, given: map<uint16, nat>, joined: set<uint16>)
    requires AllInTurn(i, given, joined) && StreamsKept(i, i')
    ensures AllInTurn(i', given, joined)
  {
    forall p | 0 <= p < |InOrder(i'.mmes)| ensures InTurn(InOrder(i'.mmes)[p], given, joined) {
      assert InTurn(InOrder(i.mmes)[p], given, joined);
    }
  }

  /** An association that comes up brings the streams, for an MME that has no UE yet. */
  lemma JoinStaysInTurn(i: Instance, p: nat, ev: Event, given: map<uint16, nat>, joined: set<uint16>)
    requires p < |InOrder(i.mmes)| && ev.SctpResp? && ev.result.Established?
    requires AllInTurn(i, given, joined) && InOrder(i.mmes)[p].cnxId !in joined
    requires forall c :: Given(given, c) > 0 ==> c in joined
    ensures AllInTurn(Apply(i, p, ev).i, given, joined + {InOrder(i.mmes)[p].cnxId})
  {
    var c, i' := InOrder(i.mmes)[p].cnxId, Apply(i, p, ev).i;
    ApplyWrites(i, p, ev);
    assert InTurn(InOrder(i.mmes)[p], given, joined);
    forall q | 0 <= q < |InOrder(i'.mmes)| ensures InTurn(InOrder(i'.mmes)[q], given, joined + {c}) {
      if q != p { assert InTurn(InOrder(i.mmes)[q], given, joined); }
    }
  }

  lemma MessageKeepsTurns(s: Enb, ev: Event, s': Enb, notices: seq<Notice>, out: Outcome)
    requires EnbInv(s) && EnbStep(s, Setup(ev), s', notices, out)
    requires ev.SctpResp? || ev.SetupResponse? || ev.SetupFailure?
    ensures TurnsKept(s')
  {
    if Target(s.t.w, ev).Some? {
      var r := Target(s.t.w, ev).value;
      var i := s.t.w.instances[r.k];
      TargetSound(s.t.w, ev);
      MessageOnInstance(s.t, ev, r);
      if ev.SctpResp? && ev.result.Established? {
        JoinStaysInTurn(i, r.p, ev, s.given, s.t.joined);
      } else {
        SetupMessagesKeepStreams(i, r.p, ev);
        KeptStreamsStayInTurn(i, Apply(i, r.p, ev).i, s.given, s.t.joined);
      }
      forall k | 0 <= k < |s.t.w.instances| && k != r.k ensures AllInTurn(s'.t.w.instances[k], s.given, s'.t.joined) {
        MoreJoined(s.t.w.instances[k], s.given, s.t.joined, s'.t.joined);
      }
    }
  }

  lemma NewestStaysInTurn(i: Instance, i': Instance, c: uint16, given: map<uint16, nat>, joined: set<uint16>)
    requires AllInTurn(i, given, joined) && Given(given, c) == 0
    requires InOrder(i'.mmes) == InOrder(i.mmes) + [NewMme(c)] && i'.ues == i.ues
    ensures AllInTurn(i', given, joined)
  {
    forall p | 0 <= p < |InOrder(i'.mmes)| ensures InTurn(InOrder(i'.mmes)[p], given, joined) {
      if p < |InOrder(i.mmes)| { assert InTurn(InOrder(i.mmes)[p], given, joined); }
    }
  }

  lemma RegistrationKeepsTurns(s: Enb, k: nat, s': Enb, notices: seq<Notice>, out: Outcome)
    requires EnbInv(s) && EnbStep(s, Setup(RegisterMme(k)), s', notices, out)
    ensures TurnsKept(s')
  {
    var i, c := s.t.w.instances[k], s.t.w.globalCnxId + 1;
    assert InstInv(i, s.t.done, s.t.joined, s.t.w.globalCnxId);
    NewestIsLast(i.mmes, NewMme(c));
    assert Given(s.given, c) == 0;
    NewestStaysInTurn(i, s'.t.w.instances[k], c, s.given, s.t.joined);
  }

  lemma SetupKeepsInv(s: Enb, ev: Event, s': Enb, notices: seq<Notice>, out: Outcome)
    requires EnbInv(s) && EnbStep(s, Setup(ev), s', notices, out)
    ensures EnbInv(s') && out == Done
  {
    StepKeepsInv(s.t, ev, s'.t, notices, out);
    match ev
    case NewInstance(id, config) => assert InOrder(NewInstanceOf(id, config).mmes) == [] && InOrder(NewInstanceOf(id, config).ues) == [];
    case RegisterMme(k) => RegistrationKeepsTurns(s, k, s', notices, out);
    case _ => MessageKeepsTurns(s, ev, s', notices, out);
  }

  lemma AdmittedConnections(i: Instance, a: Admission, i': Instance)
    requires Admitted(i, a, i')
    ensures forall c :: Has(i', c) <==> Has(i, c)
  {
    var s, s' := InOrder(i.mmes), InOrder(i'.mmes);
    assert |s'| == |s| && forall j :: 0 <= j < |s| ==> s'[j].cnxId == s[j].cnxId;
    forall c ensures Has(i', c) <==> Has(i, c) {
      if Has(i, c) { var j :| 0 <= j < |s| && s[j].cnxId == c; assert s'[j].cnxId == c; }
      if Has(i', c) { var j :| 0 <= j < |s'| && s'[j].cnxId == c; assert s[j].cnxId == c; }
    }
  }

  /** One more UE for connection `c` does not concern the MMEs of other connections. */
  lemma OthersStayInTurn(i: Instance, given: map<uint16, nat>, joined: set<uint16>, c: uint16, n: nat)
    requires AllInTurn(i, given, joined) && !Has(i, c)
    ensures AllInTurn(i, given[c := n], joined)
  {
    forall p | 0 <= p < |InOrder(i.mmes)| ensures InTurn(InOrder(i.mmes)[p], given[c := n], joined) {
      assert InTurn(InOrder(i.mmes)[p], given, joined);
    }
  }

  lemma AdmitStaysInTurn(i: Instance, a: Admission, i': Instance, given: map<uint16, nat>, joined: set<uint16>)
    requires AllInTurn(i, given, joined) && Admitted(i, a, i') && SortedByCnx(InOrder(i.mmes))
    ensures var c := InOrder(i.mmes)[a.p].cnxId;
      AllInTurn(i', given[c := Given(given, c) + 1], joined) && c in joined
  {
    var m := InOrder(i.mmes)[a.p];
    AdmitKeepsSorted(i, a, i');
    assert InTurn(m, given, joined);
    var given' := given[m.cnxId := Given(given, m.cnxId) + 1];
    forall p | 0 <= p < |InOrder(i'.mmes)| ensures InTurn(InOrder(i'.mmes)[p], given', joined) {
      assert InTurn(InOrder(i.mmes)[p], given, joined);
    }
  }

  lemma AdmitKeepsSetupInv(t: Tracked, k: nat, a: Admission, i': Instance)
    requires Inv(t) && k < |t.w.instances| && Admitted(t.w.instances[k], a, i')
    ensures Inv(WithInstance(t, k, i'))
  {
    var i := t.w.instances[k];
    assert InstInv(i, t.done, t.joined, t.w.globalCnxId);
    AdmissionKeepsAccounts(i, a, i', t.done, t.joined, t.w.globalCnxId);
    AdmittedConnections(i, a, i');
    ReplaceKeepsInv(t, k, i', t.done, t.joined);
  }

  lemma AdmitKeepsInv(s: Enb, k: nat, a: Admission, s': Enb)
    requires EnbInv(s) && EnbStep(s, Admit(k, a), s', [], Done)
    ensures EnbInv(s')
  {
    var i', c := s'.t.w.instances[k], CnxOf(s.t, k, a.p);
    assert s' == Enb(WithInstance(s.t, k, i'), s.given[c := Given(s.given, c) + 1]);
    AdmitKeepsSetupInv(s.t, k, a, i');
    AdmitKeepsTurns(s, k, a, i');
  }

  lemma AdmitKeepsTurns(s: Enb, k: nat, a: Admission, i': Instance)
    requires EnbInv(s) && k < |s.t.w.instances| && Admitted(s.t.w.instances[k], a, i')
    ensures var c := CnxOf(s.t, k, a.p);
      TurnsKept(Enb(WithInstance(s.t, k, i'), s.given[c := Given(s.given, c) + 1]))
  {
    var i, t, c := s.t.w.instances[k], s.t, CnxOf(s.t, k, a.p);
    var n := Given(s.given, c) + 1;
    assert InstInv(i, t.done, t.joined, t.w.globalCnxId);
    AdmitStaysInTurn(i, a, i', s.given, t.joined);
    assert Has(i, c);
    forall l | 0 <= l < |t.w.instances| && l != k ensures AllInTurn(t.w.instances[l], s.given[c := n], t.joined) {
      OtherInstanceStaysInTurn(s, k, l, c, n);
    }
  }

  lemma OtherInstanceStaysInTurn(s: Enb, k: nat, l: nat, c: uint16, n: nat)
    requires EnbInv(s) && k < |s.t.w.instances| && l < |s.t.w.instances| && k != l && Has(s.t.w.instances[k], c)
    ensures AllInTurn(s.t.w.instances[l], s.given[c := n], s.t.joined)
  {
    assert !Has(s.t.w.instances[l], c);
    OthersStayInTurn(s.t.w.instances[l], s.given, s.t.joined, c, n);
  }

  lemma ReleaseKeepsInv(s: Enb, k: nat, id: uint24, s': Enb)
    requires EnbInv(s) && EnbStep(s, Release(k, id), s', [], Done)
    ensures EnbInv(s')
  {
    var i, i', t := s.t.w.instances[k], s'.t.w.instances[k], s.t;
    assert InstInv(i, t.done, t.joined, t.w.globalCnxId);
    ReplaceKeepsInv(t, k, i', t.done, t.joined);
    ReleaseKeepsSorted(i, id, i');
    forall p | 0 <= p < |InOrder(i'.mmes)| ensures InTurn(InOrder(i'.mmes)[p], s.given, t.joined) {
      assert InTurn(InOrder(i.mmes)[p], s.given, t.joined);
    }
  }

  lemma EnbStepKeepsInv(s: Enb, ev: EnbEvent, s': Enb, notices: seq<Notice>, out: Outcome)
    requires EnbInv(s) && EnbStep(s, ev, s', notices, out)
    ensures EnbInv(s') && out == Done
  {
    match ev
    case Setup(e) => SetupKeepsInv(s, e, s', notices, out);
    case Admit(k, a) => AdmitKeepsInv(s, k, a, s');
    case Release(k, id) => ReleaseKeepsInv(s, k, id, s');
  }

  // ---------------------------------------------------------------- every run

  ghost predicate IsEnbRun(states: seq<Enb>, events: seq<EnbEvent>, notices: seq<seq<Notice>>, outs: seq<Outcome>) {
    && |states| == |events| + 1 && |notices| == |outs| == |events| && states[0] == IDLE
    && forall i :: 0 <= i < |events| ==> EnbStep(states[i], events[i], states[i + 1], notices[i], outs[i])
  }

  /** Over every run in which MMEs register, come up, answer and are lost while UEs come and go: the
      S1 Setup accounts are right, no check fails, the UEs of each instance stay sorted, so that live
      UEs have distinct identifiers, and each MME hands out its streams in turn. */
  lemma {:induction false} EveryRunStaysInTurn(states: seq<Enb>, events: seq<EnbEvent>, notices: seq<seq<Notice>>, outs: seq<Outcome>, n: nat)
    requires IsEnbRun(states, events, notices, outs) && n < |states|
    ensures EnbInv(states[n])
    ensures forall j :: 0 <= j < n ==> outs[j] == Done
  {
    if n > 0 {
      EveryRunStaysInTurn(states, events, notices, outs, n - 1);
      assert EnbStep(states[n - 1], events[n - 1], states[n], notices[n - 1], outs[n - 1]);
      EnbStepKeepsInv(states[n - 1], events[n - 1], states[n], notices[n - 1], outs[n - 1]);
    }
  }

  /** The messages to the application stay exact with UEs about. */
  lemma EveryNoticeStaysExact(states: seq<Enb>, events: seq<EnbEvent>, notices: seq<seq<Notice>>, outs: seq<Outcome>, n: nat)
    requires IsEnbRun(states, events, notices, outs) && n < |events|
    ensures match events[n]
      case Setup(ev) =>
        if ev.NewInstance? || ev.RegisterMme? then notices[n] == []
        else |states[n + 1].t.w.instances| == |states[n].t.w.instances| && NoticesExact(states[n].t, ev, states[n + 1].t, notices[n])
      case _ => notices[n] == []
  {
    EveryRunStaysInTurn(states, events, notices, outs, n);
    assert EnbStep(states[n], events[n], states[n + 1], notices[n], outs[n]);
    match events[n]
    case Setup(ev) =>
      if !(ev.NewInstance? || ev.RegisterMme?) { MessageKeepsInv(states[n].t, ev, states[n + 1].t, notices[n], outs[n]); }
    case _ =>
  }

  /** The admissions among the first `n` events that were for the MME of connection `c`. */
  ghost function AdmissionsTo(states: seq<Enb>, events: seq<EnbEvent>, n: nat, c: uint16): nat
    requires n <= |events| < |states|
  {
    if n == 0 then 0
    else AdmissionsTo(states, events, n - 1, c) + if IsAdmissionTo(states[n - 1], events[n - 1], c) then 1 else 0
  }

  ghost predicate IsAdmissionTo(s: Enb, ev: EnbEvent, c: uint16) {
    && ev.Admit? && ev.k < |s.t.w.instances| && ev.a.p < |InOrder(s.t.w.instances[ev.k].mmes)|
    && CnxOf(s.t, ev.k, ev.a.p) == c
  }

  lemma {:induction false} GivenCountsAdmissions(states: seq<Enb>, events: seq<EnbEvent>, notices: seq<seq<Notice>>, outs: seq<Outcome>, n: nat, c: uint16)
    requires IsEnbRun(states, events, notices, outs) && n < |states|
    ensures Given(states[n].given, c) == AdmissionsTo(states, events, n, c)
  {
    if n > 0 {
      GivenCountsAdmissions(states, events, notices, outs, n - 1, c);
      assert EnbStep(states[n - 1], events[n - 1], states[n], notices[n - 1], outs[n - 1]);
    }
  }

  /** In every such run the k-th UE given to an MME has stream ((k - 1) mod out_streams) + 1, whatever
      happens in between, and an identifier no live UE of its instance has. */
  lemma EveryAdmissionIsInTurn(states: seq<Enb>, events: seq<EnbEvent>, notices: seq<seq<Notice>>, outs: seq<Outcome>, n: nat)
    requires IsEnbRun(states, events, notices, outs) && n < |events| && events[n].Admit?
    ensures var k, a := events[n].k, events[n].a;
      && k < |states[n].t.w.instances|
      && var i := states[n].t.w.instances[k];
      && a.p < |InOrder(i.mmes)|
      && var m := InOrder(i.mmes)[a.p]; var nth := AdmissionsTo(states, events, n + 1, m.cnxId);
      && nth > 0 && m.outStreams > 0 && a.stream == (nth - 1) % m.outStreams + 1
      && forall j :: 0 <= j < |InOrder(i.ues)| ==> InOrder(i.ues)[j].id != a.ueId
  {
    assert EnbStep(states[n], events[n], states[n + 1], notices[n], outs[n]);
    var k, a := events[n].k, events[n].a;
    var m := InOrder(states[n].t.w.instances[k].mmes)[a.p];
    EveryRunStaysInTurn(states, events, notices, outs, n);
    GivenCountsAdmissions(states, events, notices, outs, n, m.cnxId);
    assert InTurn(m, states[n].given, states[n].t.joined);
    StreamIsRoundRobin(AdmissionsTo(states, events, n + 1, m.cnxId), m.outStreams);
  }

  // ---------------------------------------------------------------- the handler's preconditions

  /** An associated MME has streams. No handler makes an MME overloaded. */
  ghost predicate Usable(m: Mme) {
    m.state != OVERLOAD && (m.assocId != -1 ==> m.outStreams > 0)
  }

  ghost predicate AllUsable(s: Enb) {
    forall k :: 0 <= k < |s.t.w.instances| ==> InstUsable(s.t.w.instances[k])
  }

  ghost predicate InstUsable(i: Instance) {
    forall p :: 0 <= p < |InOrder(i.mmes)| ==> Usable(InOrder(i.mmes)[p])
  }

  lemma ApplyKeepsUsable(i: Instance, p: nat, ev: Event)
    requires p < |InOrder(i.mmes)| && (ev.SctpResp? || ev.SetupResponse? || ev.SetupFailure?)
    requires InstUsable(i) && (ev.SctpResp? && ev.result.Established? ==> ev.result.outStreams > 0)
    ensures InstUsable(Apply(i, p, ev).i)
  {
    ApplyWrites(i, p, ev);
    assert Usable(InOrder(i.mmes)[p]);
  }

  /** What SCTP promises: an association that comes up has an outgoing stream. */
  predicate BringsStreams(ev: EnbEvent) {
    ev.Setup? && ev.ev.SctpResp? && ev.ev.result.Established? ==> ev.ev.result.outStreams > 0
  }

  lemma StepKeepsUsable(s: Enb, ev: EnbEvent, s': Enb, notices: seq<Notice>, out: Outcome)
    requires EnbInv(s) && AllUsable(s) && EnbStep(s, ev, s', notices, out) && BringsStreams(ev)
    ensures AllUsable(s')
  {
    match ev
    case Setup(e) => SetupKeepsUsable(s, e, s', notices, out);
    case Admit(k, a) =>
      assert InstUsable(s.t.w.instances[k]);
      assert InstUsable(s'.t.w.instances[k]) by { assert Usable(InOrder(s.t.w.instances[k].mmes)[a.p]); }
    case Release(k, id) => assert InstUsable(s.t.w.instances[k]);
  }

  lemma SetupKeepsUsable(s: Enb, e: Event, s': Enb, notices: seq<Notice>, out: Outcome)
    requires EnbInv(s) && AllUsable(s) && EnbStep(s, Setup(e), s', notices, out) && BringsStreams(Setup(e))
    ensures AllUsable(s')
  {
    match e
    case NewInstance(id, config) => assert InOrder(NewInstanceOf(id, config).mmes) == [];
    case RegisterMme(k) => RegistrationKeepsUsable(s, k, s', notices, out);
    case _ => MessageKeepsUsable(s, e, s', notices, out);
  }

  lemma RegistrationKeepsUsable(s: Enb, k: nat, s': Enb, notices: seq<Notice>, out: Outcome)
    requires EnbInv(s) && AllUsable(s) && EnbStep(s, Setup(RegisterMme(k)), s', notices, out)
    ensures AllUsable(s')
  {
    var i, m := s.t.w.instances[k], NewMme(s.t.w.globalCnxId + 1);
    assert InstInv(i, s.t.done, s.t.joined, s.t.w.globalCnxId);
    NewestIsLast(i.mmes, m);
    assert InOrder(s'.t.w.instances[k].mmes) == InOrder(i.mmes) + [m];
    assert InstUsable(i) && Usable(m);
  }

  lemma MessageKeepsUsable(s: Enb, e: Event, s': Enb, notices: seq<Notice>, out: Outcome)
    requires AllUsable(s) && Step(s.t.w, e, s'.t.w, notices, out) && BringsStreams(Setup(e))
    requires e.SctpResp? || e.SetupResponse? || e.SetupFailure?
    ensures AllUsable(s')
  {
    if Target(s.t.w, e).Some? {
      var r := Target(s.t.w, e).value;
      assert InstUsable(s.t.w.instances[r.k]);
      ApplyKeepsUsable(s.t.w.instances[r.k], r.p, e);
    }
  }

  lemma {:induction false} EveryRunStaysUsable(states: seq<Enb>, events: seq<EnbEvent>, notices: seq<seq<Notice>>, outs: seq<Outcome>, n: nat)
    requires IsEnbRun(states, events, notices, outs) && n < |states|
    requires forall j :: 0 <= j < |events| ==> BringsStreams(events[j])
    ensures AllUsable(states[n])
  {
    if n > 0 {
      EveryRunStaysUsable(states, events, notices, outs, n - 1);
      EveryRunStaysInTurn(states, events, notices, outs, n - 1);
      assert BringsStreams(events[n - 1]);
      StepKeepsUsable(states[n - 1], events[n - 1], states[n], notices[n - 1], outs[n - 1]);
    }
  }

  /** In every such run, with SCTP's promise, the handler of a first NAS request finds its UE tree
      sorted and every MME it may choose with a stream to assign. */
  lemma EveryRunIsReadyForUes(states: seq<Enb>, events: seq<EnbEvent>, notices: seq<seq<Notice>>, outs: seq<Outcome>, n: nat, k: nat)
    requires IsEnbRun(states, events, notices, outs) && n < |states| && k < |states[n].t.w.instances|
    requires forall j :: 0 <= j < |events| ==> BringsStreams(events[j])
    ensures var i := states[n].t.w.instances[k];
      && SortedUes(InOrder(i.ues))
      && forall m :: m in InOrder(i.mmes) && (m.state == CONNECTED || m.state == OVERLOAD) ==> m.outStreams > 0
  {
    EveryRunStaysInTurn(states, events, notices, outs, n);
    EveryRunStaysUsable(states, events, notices, outs, n);
    var i := states[n].t.w.instances[k];
    assert InstInv(i, states[n].t.done, states[n].t.joined, states[n].t.w.globalCnxId);
    assert InstUsable(i);
  }
}
