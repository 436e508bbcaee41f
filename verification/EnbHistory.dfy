/** What the eNB stores about UEs and MMEs, said in terms of what has happened to it. */
module EnbHistory {
  import opened Common
  import opened SearchTree
  import opened EnbInstances
  import opened S1SetupAccounting
  import opened S1SetupLaws
  import opened UeAdmission
  import opened EnbRuns

  // ---------------------------------------------------------------- live UEs

  /** Event `j` admitted `u` to instance `k`: its identifier, the connection of its MME, its stream. */
  ghost predicate AdmittedAs(states: seq<Enb>, events: seq<EnbEvent>, j: nat, k: nat, u: Ue) {
    && j < |events| < |states| && events[j].Admit? && events[j].k == k
    && k < |states[j].t.w.instances| && events[j].a.p < |InOrder(states[j].t.w.instances[k].mmes)|
    && u.id == events[j].a.ueId && u.stream == events[j].a.stream
    && u.mmeCnxId == InOrder(states[j].t.w.instances[k].mmes)[events[j].a.p].cnxId
  }

  ghost predicate NotReleased(events: seq<EnbEvent>, from: nat, to: nat, k: nat, id: uint24) {
    forall j :: from <= j < to && j < |events| ==> events[j] != Release(k, id)
  }

  ghost predicate LiveSince(states: seq<Enb>, events: seq<EnbEvent>, n: nat, j: nat, k: nat, u: Ue) {
    j < n && AdmittedAs(states, events, j, k, u) && NotReleased(events, j + 1, n, k, u.id)
  }

  ghost predicate Live(states: seq<Enb>, events: seq<EnbEvent>, n: nat, k: nat, u: Ue) {
    exists j: nat :: LiveSince(states, events, n, j, k, u)
  }

  lemma LiveOneMore(states: seq<Enb>, events: seq<EnbEvent>, n: nat, m: nat, k: nat, u: Ue)
    requires n < |events| < |states| && m == n + 1
    ensures Live(states, events, m, k, u) <==>
            (Live(states, events, n, k, u) && events[n] != Release(k, u.id)) || AdmittedAs(states, events, n, k, u)
  {
    if j: nat :| LiveSince(states, events, m, j, k, u) {
      if j < n { assert LiveSince(states, events, n, j, k, u); }
    }
    if events[n] != Release(k, u.id) {
      if j: nat :| LiveSince(states, events, n, j, k, u) { assert LiveSince(states, events, m, j, k, u); }
    }
    if AdmittedAs(states, events, n, k, u) { assert LiveSince(states, events, m, n, k, u); }
  }

  lemma SetupKeepsUes(w: World, e: Event, w': World, notices: seq<Notice>, out: Outcome)
    requires Step(w, e, w', notices, out)
    ensures |w.instances| <= |w'.instances|
    ensures forall k :: 0 <= k < |w.instances| ==> w'.instances[k].ues == w.instances[k].ues
    ensures forall k :: |w.instances| <= k < |w'.instances| ==> InOrder(w'.instances[k].ues) == []
  {
    match e
    case NewInstance(id, config) =>
    case RegisterMme(k) =>
    case _ =>
      if Target(w, e).Some? { ApplyWrites(w.instances[Target(w, e).value.k], Target(w, e).value.p, e); }
  }

  lemma InsertedUes(s: seq<Ue>, p: nat, x: Ue, u: Ue)
    requires p <= |s|
    ensures u in InsertAt(s, p, x) <==> u in s || u == x
  {
    var s' := InsertAt(s, p, x);
    assert s' == s[..p] + [x] + s[p..];
    assert s == s[..p] + s[p..];
  }

  lemma RemainingUes(s: seq<Ue>, p: nat, u: Ue)
    requires SortedUes(s) && p < |s|
    ensures u in s[..p] + s[p + 1..] <==> u in s && u.id != s[p].id
  {
    assert s == s[..p] + [s[p]] + s[p + 1..];
    if u in s[..p] { var j :| 0 <= j < p && s[j] == u; }
    if u in s[p + 1..] { var j :| p < j < |s| && s[j] == u; }
  }

  /** The UEs of an instance; none before it exists. */
  function UesOf(s: Enb, k: nat): seq<Ue> {
    if k < |s.t.w.instances| then InOrder(s.t.w.instances[k].ues) else []
  }

  lemma UesOneMore(states: seq<Enb>, events: seq<EnbEvent>, n: nat, m: nat, k: nat, u: Ue, notices: seq<Notice>, out: Outcome)
    requires n < |events| < |states| && m == n + 1 && EnbInv(states[n])
    requires EnbStep(states[n], events[n], states[m], notices, out)
    ensures u in UesOf(states[m], k) <==>
            (u in UesOf(states[n], k) && events[n] != Release(k, u.id)) || AdmittedAs(states, events, n, k, u)
  {
    var s, s' := states[n], states[m];
    match events[n]
    case Setup(e) => SetupKeepsUes(s.t.w, e, s'.t.w, notices, out);
    case Admit(l, a) =>
      if k == l {
        var i := s.t.w.instances[k];
        var x := Ue(a.ueId, InOrder(i.mmes)[a.p].cnxId, a.stream);
        InsertedUes(InOrder(i.ues), InsertPos(i.ues, AgainstId(a.ueId)), x, u);
      }
    case Release(l, id) =>
      if k == l {
        var c := InOrder(s.t.w.instances[k].ues);
        var p :| 0 <= p < |c| && c[p].id == id && UesOf(s', k) == c[..p] + c[p + 1..];
        assert AllInTurn(s.t.w.instances[k], s.given, s.t.joined);
        RemainingUes(c, p, u);
      }
  }

  /** Over every run: the UEs stored in an instance are exactly those that were admitted to it and not
      released since, each with the connection of its own MME and its own stream. */
  lemma {:induction false} UesAreThoseAdmitted(states: seq<Enb>, events: seq<EnbEvent>, notices: seq<seq<Notice>>, outs: seq<Outcome>, n: nat, k: nat, u: Ue)
    requires IsEnbRun(states, events, notices, outs) && n < |states|
    ensures u in UesOf(states[n], k) <==> Live(states, events, n, k, u)
  {
    if n > 0 {
      UesAreThoseAdmitted(states, events, notices, outs, n - 1, k, u);
      EveryRunStaysInTurn(states, events, notices, outs, n - 1);
      assert EnbStep(states[n - 1], events[n - 1], states[n], notices[n - 1], outs[n - 1]);
      UesOneMore(states, events, n - 1, n, k, u, notices[n - 1], outs[n - 1]);
      LiveOneMore(states, events, n - 1, n, k, u);
    }
  }

  // ---------------------------------------------------------------- MME descriptors

  predicate BringsUp(ev: EnbEvent, c: uint16) {
    ev.Setup? && ev.ev.SctpResp? && ev.ev.cnxId == c && ev.ev.result.Established?
  }

  predicate Loses(ev: EnbEvent, c: uint16) {
    ev.Setup? && ev.ev.SctpResp? && ev.ev.cnxId == c && ev.ev.result.Shutdown?
  }

  /** The setup response of the MME of connection `c`. */
  predicate Answers(s: Enb, ev: EnbEvent, c: uint16) {
    ev.Setup? && ev.ev.SetupResponse? && CnxOfTarget(s.t.w, ev.ev) == Some(c)
  }

  function LastJoin(events: seq<EnbEvent>, n: nat, c: uint16): Option<SctpResult>
    requires n <= |events|
    ensures LastJoin(events, n, c).Some? ==> LastJoin(events, n, c).value.Established?
  {
    if n == 0 then None
    else if BringsUp(events[n - 1], c) then Some(events[n - 1].ev.result)
    else LastJoin(events, n - 1, c)
  }

  function LastAnswer(states: seq<Enb>, events: seq<EnbEvent>, n: nat, c: uint16): (r: Option<nat>)
    requires n <= |events| < |states|
    ensures r.Some? ==> r.value < n && Answers(states[r.value], events[r.value], c)
  {
    if n == 0 then None
    else if Answers(states[n - 1], events[n - 1], c) then Some(n - 1)
    else LastAnswer(states, events, n - 1, c)
  }

  function LostSince(events: seq<EnbEvent>, from: nat, n: nat, c: uint16): bool
    requires n <= |events|
  {
    from < n && (Loses(events[n - 1], c) || LostSince(events, from, n - 1, c))
  }

  /** A descriptor has the association and the streams its association came up with, the capacity and
      one served item of its setup response, and its state says whether it answered and whether it was
      lost after that. Nothing sets an overload. */
  ghost predicate Described(m: Mme, states: seq<Enb>, events: seq<EnbEvent>, n: nat)
    requires n <= |events| < |states|
  {
    && m.overload == REJECT_MO_DATA
    && (match LastJoin(events, n, m.cnxId)
        case None => m.assocId == -1 && m.inStreams == 0 && m.outStreams == 0
        case Some(r) => m.assocId == r.assocId && m.inStreams == r.inStreams && m.outStreams == r.outStreams)
    && match LastAnswer(states, events, n, m.cnxId)
       case None => m.capacity == 0 && m.gummeis == [] && m.state == WAITING
       case Some(j) =>
         && m.capacity == events[j].ev.capacity && |m.gummeis| == 1
         && m.state == if LostSince(events, j + 1, n, m.cnxId) then DISCONNECTED else CONNECTED
  }

  ghost predicate AllDescribed(s: Enb, states: seq<Enb>, events: seq<EnbEvent>, n: nat)
    requires n <= |events| < |states|
  {
    forall k, p :: 0 <= k < |s.t.w.instances| && 0 <= p < |InOrder(s.t.w.instances[k].mmes)| ==>
      Described(InOrder(s.t.w.instances[k].mmes)[p], states, events, n)
  }

  /** Only joined connections have come up, and only joined ones with an outcome have answered. */
  ghost predicate HistoryBounded(s: Enb, states: seq<Enb>, events: seq<EnbEvent>, n: nat)
    requires n <= |events| < |states|
  {
    && (forall c :: LastJoin(events, n, c).Some? ==> c in s.t.joined)
    && forall c :: LastAnswer(states, events, n, c).Some? ==> c in s.t.done && c in s.t.joined
  }

  /** The event is a message about connection `c`. */
  ghost predicate Concerns(s: Enb, ev: EnbEvent, c: uint16) {
    && ev.Setup? && (ev.ev.SctpResp? || ev.ev.SetupResponse? || ev.ev.SetupFailure?)
    && CnxOfTarget(s.t.w, ev.ev) == Some(c)
  }

  lemma UnconcernedHistory(states: seq<Enb>, events: seq<EnbEvent>, n: nat, c: uint16, notices: seq<Notice>, out: Outcome)
    requires n < |events| < |states| && EnbStep(states[n], events[n], states[n + 1], notices, out)
    requires !Concerns(states[n], events[n], c)
    ensures !BringsUp(events[n], c) && !Loses(events[n], c) && !Answers(states[n], events[n], c)
  {
    if events[n].Setup? && events[n].ev.SctpResp? { TargetSound(states[n].t.w, events[n].ev); }
  }

  lemma KeptDescribed(m: Mme, m': Mme, states: seq<Enb>, events: seq<EnbEvent>, n: nat, notices: seq<Notice>, out: Outcome)
    requires n < |events| < |states| && EnbStep(states[n], events[n], states[n + 1], notices, out)
    requires Described(m, states, events, n) && m' == m.(nextStream := m'.nextStream)
    requires !Concerns(states[n], events[n], m.cnxId)
    ensures Described(m', states, events, n + 1)
  {
    UnconcernedHistory(states, events, n, m.cnxId, notices, out);
  }

  lemma TargetDescribed(m: Mme, states: seq<Enb>, events: seq<EnbEvent>, n: nat, notices: seq<Notice>, out: Outcome)
    requires n < |events| < |states| && EnbStep(states[n], events[n], states[n + 1], notices, out)
    requires Described(m, states, events, n) && HistoryBounded(states[n], states, events, n)
    requires Concerns(states[n], events[n], m.cnxId)
    requires events[n].ev.SctpResp? ==> events[n].ev.cnxId == m.cnxId
    ensures Described(AfterMessage(m, events[n].ev), states, events, n + 1)
  {
    var e := events[n].ev;
    match e
    case SctpResp(_, _, result) => match result { case Established(_, _, _) => case Shutdown => case Unsuccessful => }
    case SetupResponse(_, stream, _, _) =>
    case SetupFailure(_) =>
  }

  lemma MessageKeepsDescribed(states: seq<Enb>, events: seq<EnbEvent>, n: nat, notices: seq<Notice>, out: Outcome)
    requires n < |events| < |states| && EnbStep(states[n], events[n], states[n + 1], notices, out)
    requires EnbInv(states[n]) && AllDescribed(states[n], states, events, n) && HistoryBounded(states[n], states, events, n)
    requires events[n].Setup? && (events[n].ev.SctpResp? || events[n].ev.SetupResponse? || events[n].ev.SetupFailure?)
    ensures AllDescribed(states[n + 1], states, events, n + 1)
  {
    var s, s', e := states[n].t.w, states[n + 1].t.w, events[n].ev;
    forall k, p | 0 <= k < |s'.instances| && 0 <= p < |InOrder(s'.instances[k].mmes)|
      ensures Described(InOrder(s'.instances[k].mmes)[p], states, events, n + 1)
    {
      MessageWritesOne(s, e, k, p);
      if Target(s, e) == Some(Ref(k, p)) {
        TargetSound(s, e);
        TargetDescribed(InOrder(s.instances[k].mmes)[p], states, events, n, notices, out);
      } else {
        BystanderDescribed(states, events, n, k, p, notices, out);
      }
    }
  }

  /** Place by place, what handling a message does to the descriptors. */
  lemma MessageWritesOne(s: World, e: Event, k: nat, p: nat)
    requires e.SctpResp? || e.SetupResponse? || e.SetupFailure?
    requires k < |Handle(s, e).w.instances| && p < |InOrder(Handle(s, e).w.instances[k].mmes)|
    ensures k < |s.instances| && p < |InOrder(s.instances[k].mmes)|
    ensures var m := InOrder(s.instances[k].mmes)[p];
      InOrder(Handle(s, e).w.instances[k].mmes)[p] == if Target(s, e) == Some(Ref(k, p)) then AfterMessage(m, e) else m
  {
    if Target(s, e).Some? {
      var r := Target(s, e).value;
      ApplyWrites(s.instances[r.k], r.p, e);
    }
  }

  /** A message is about one place; the descriptors in the others are as before. */
  lemma BystanderDescribed(states: seq<Enb>, events: seq<EnbEvent>, n: nat, k: nat, p: nat, notices: seq<Notice>, out: Outcome)
    requires n < |events| < |states| && EnbStep(states[n], events[n], states[n + 1], notices, out)
    requires EnbInv(states[n]) && AllDescribed(states[n], states, events, n)
    requires events[n].Setup? && (events[n].ev.SctpResp? || events[n].ev.SetupResponse? || events[n].ev.SetupFailure?)
    requires k < |states[n].t.w.instances| && p < |InOrder(states[n].t.w.instances[k].mmes)|
    requires Target(states[n].t.w, events[n].ev) != Some(Ref(k, p))
    ensures Described(InOrder(states[n].t.w.instances[k].mmes)[p], states, events, n + 1)
  {
    var s, e := states[n].t.w, events[n].ev;
    var m := InOrder(s.instances[k].mmes)[p];
    assert Described(m, states, events, n);
    if Target(s, e).Some? { OtherConnection(states[n].t, Target(s, e).value, k, p); }
    KeptDescribed(m, m, states, events, n, notices, out);
  }

  /** Different places hold different connections. */
  lemma OtherConnection(t: Tracked, r: Ref, k: nat, p: nat)
    requires Inv(t) && r != Ref(k, p)
    requires r.k < |t.w.instances| && r.p < |InOrder(t.w.instances[r.k].mmes)|
    requires k < |t.w.instances| && p < |InOrder(t.w.instances[k].mmes)|
    ensures InOrder(t.w.instances[r.k].mmes)[r.p].cnxId != InOrder(t.w.instances[k].mmes)[p].cnxId
  {
    assert InstInv(t.w.instances[k], t.done, t.joined, t.w.globalCnxId);
    if r.k != k {
      assert Has(t.w.instances[k], InOrder(t.w.instances[k].mmes)[p].cnxId);
      assert Has(t.w.instances[r.k], InOrder(t.w.instances[r.k].mmes)[r.p].cnxId);
    }
  }

  lemma RegistrationKeepsDescribed(states: seq<Enb>, events: seq<EnbEvent>, n: nat, notices: seq<Notice>, out: Outcome)
    requires n < |events| < |states| && EnbStep(states[n], events[n], states[n + 1], notices, out)
    requires EnbInv(states[n]) && AllDescribed(states[n], states, events, n) && HistoryBounded(states[n], states, events, n)
    requires events[n].Setup? && events[n].ev.RegisterMme?
    ensures AllDescribed(states[n + 1], states, events, n + 1)
  {
    var t, t', l := states[n].t, states[n + 1].t, events[n].ev.k;
    var i, c := t.w.instances[l], t.w.globalCnxId + 1;
    assert InstInv(i, t.done, t.joined, t.w.globalCnxId);
    NewestIsLast(i.mmes, NewMme(c));
    assert InOrder(t'.w.instances[l].mmes) == InOrder(i.mmes) + [NewMme(c)];
    assert c !in t.joined && LastJoin(events, n, c).None? && LastAnswer(states, events, n, c).None?;
    forall k, p | 0 <= k < |t'.w.instances| && 0 <= p < |InOrder(t'.w.instances[k].mmes)|
      ensures Described(InOrder(t'.w.instances[k].mmes)[p], states, events, n + 1)
    {
      var m := InOrder(t'.w.instances[k].mmes)[p];
      if k != l || p < |InOrder(i.mmes)| {
        assert m == InOrder(t.w.instances[k].mmes)[p];
        assert Described(m, states, events, n);
      } else {
        assert Described(m, states, events, n);
      }
      KeptDescribed(m, m, states, events, n, notices, out);
    }
  }

  /** Events that are no messages leave every descriptor but for its next stream. */
  lemma OthersKeepDescribed(states: seq<Enb>, events: seq<EnbEvent>, n: nat, notices: seq<Notice>, out: Outcome)
    requires n < |events| < |states| && EnbStep(states[n], events[n], states[n + 1], notices, out)
    requires AllDescribed(states[n], states, events, n)
    requires events[n].Setup? ==> events[n].ev.NewInstance?
    ensures AllDescribed(states[n + 1], states, events, n + 1)
  {
    var s, s' := states[n].t.w, states[n + 1].t.w;
    forall k, p | 0 <= k < |s'.instances| && 0 <= p < |InOrder(s'.instances[k].mmes)|
      ensures Described(InOrder(s'.instances[k].mmes)[p], states, events, n + 1)
    {
      var m' := InOrder(s'.instances[k].mmes)[p];
      assert k < |s.instances| && p < |InOrder(s.instances[k].mmes)|;
      var m := InOrder(s.instances[k].mmes)[p];
      assert Described(m, states, events, n);
      KeptDescribed(m, m', states, events, n, notices, out);
    }
  }

  lemma HistoryStaysBounded(states: seq<Enb>, events: seq<EnbEvent>, n: nat, m: nat, notices: seq<Notice>, out: Outcome)
    requires n < |events| < |states| && m == n + 1 && EnbStep(states[n], events[n], states[m], notices, out)
    requires EnbInv(states[n]) && HistoryBounded(states[n], states, events, n)
    ensures HistoryBounded(states[m], states, events, m)
  {
    var s, s', ev := states[n], states[m], events[n];
    forall c | LastJoin(events, m, c).Some? ensures c in s'.t.joined {
      if !BringsUp(ev, c) { assert LastJoin(events, n, c).Some?; }
    }
    forall c | LastAnswer(states, events, m, c).Some? ensures c in s'.t.done && c in s'.t.joined {
      if Answers(s, ev, c) {
        AnswererIsJoined(s, ev.ev);
      } else {
        assert LastAnswer(states, events, n, c).Some?;
      }
    }
  }

  lemma AnswererIsJoined(s: Enb, e: Event)
    requires EnbInv(s) && e.SetupResponse? && CnxOfTarget(s.t.w, e).Some?
    ensures CnxOfTarget(s.t.w, e).value in s.t.joined
  {
    var r := Target(s.t.w, e).value;
    TargetSound(s.t.w, e);
    assert InstInv(s.t.w.instances[r.k], s.t.done, s.t.joined, s.t.w.globalCnxId);
  }

  lemma {:induction false} HistoryIsBounded(states: seq<Enb>, events: seq<EnbEvent>, notices: seq<seq<Notice>>, outs: seq<Outcome>, n: nat)
    requires IsEnbRun(states, events, notices, outs) && n < |states|
    ensures HistoryBounded(states[n], states, events, n)
  {
    if n > 0 {
      HistoryIsBounded(states, events, notices, outs, n - 1);
      EveryRunStaysInTurn(states, events, notices, outs, n - 1);
      assert EnbStep(states[n - 1], events[n - 1], states[n], notices[n - 1], outs[n - 1]);
      HistoryStaysBounded(states, events, n - 1, n, notices[n - 1], outs[n - 1]);
    }
  }

  lemma StepKeepsDescribed(states: seq<Enb>, events: seq<EnbEvent>, notices: seq<seq<Notice>>, outs: seq<Outcome>, n: nat)
    requires IsEnbRun(states, events, notices, outs) && n < |events|
    requires AllDescribed(states[n], states, events, n)
    ensures AllDescribed(states[n + 1], states, events, n + 1)
  {
    var ev := events[n];
    assert EnbStep(states[n], ev, states[n + 1], notices[n], outs[n]);
    EveryRunStaysInTurn(states, events, notices, outs, n);
    HistoryIsBounded(states, events, notices, outs, n);
    if ev.Setup? && ev.ev.RegisterMme? {
      RegistrationKeepsDescribed(states, events, n, notices[n], outs[n]);
    } else if ev.Setup? && !ev.ev.NewInstance? {
      MessageKeepsDescribed(states, events, n, notices[n], outs[n]);
    } else {
      OthersKeepDescribed(states, events, n, notices[n], outs[n]);
    }
  }

  /** Over every run: every MME descriptor is what its own history makes it. */
  lemma {:induction false} DescriptorsFollowHistory(states: seq<Enb>, events: seq<EnbEvent>, notices: seq<seq<Notice>>, outs: seq<Outcome>, n: nat)
    requires IsEnbRun(states, events, notices, outs) && n < |states|
    ensures AllDescribed(states[n], states, events, n)
  {
    if n > 0 {
      DescriptorsFollowHistory(states, events, notices, outs, n - 1);
      StepKeepsDescribed(states, events, notices, outs, n - 1);
    }
  }
}
