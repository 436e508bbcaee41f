/**
 The eNB and the S-GW together: any interleaving of tunnel creates, updates, deletes and
 packets, and where the packets end up.
 */
module TunnelDelivery {
  import opened Common
  import opened TeidAllocation
  import opened EnbTunnels
  import opened EnbTunnelLaws
  import Sgw = SgwTunnels

  /** What the eNB has answered so far: one entry per bearer it set up or tore down. */
  datatype Entry =
    | Opened(ue: UeIndex, ebi: BearerId, sgwTeid: Teid, sgwAddr: SgwAddr, enbTeid: Teid)
    | Closed(ue: UeIndex, ebi: BearerId)

  datatype System = System(enb: EnbState, sgw: Sgw.SgwState, log: seq<Entry>)

  const INITIAL := System(EMPTY_ENB, Sgw.EMPTY_SGW, [])

  datatype Event =
    | SgwCreate
    | SgwUpdate(sgwTeid: Teid, enbTeid: Teid, enbIp: uint32)
    | SgwDelete(sgwTeid: Teid)
    | SgwEntryLost(sgwTeid: Teid)
    | EnbCreate(ue: UeIndex, items: seq<TunnelToSetUp>)
    | EnbDelete(ue: UeIndex, ebis: seq<BearerId>)

  function Openings(ue: UeIndex, items: seq<TunnelToSetUp>, teids: seq<Teid>): (r: seq<Entry>)
    requires |teids| == |items|
    ensures |r| == |items|
  {
    seq(|items|, i requires 0 <= i < |items| => Opened(ue, items[i].ebi, items[i].sgwTeid, items[i].sgwAddr, teids[i]))
  }

  function Closings(ue: UeIndex, ebis: seq<BearerId>): (r: seq<Entry>) {
    seq(|ebis|, i requires 0 <= i < |ebis| => Closed(ue, ebis[i]))
  }

  /** The eNB answered a create that carried S-GW TEID `s` with eNB TEID `t`. */
  ghost predicate Answered(log: seq<Entry>, s: Teid, t: Teid) {
    exists i :: 0 <= i < |log| && log[i].Opened? && log[i].sgwTeid == s && log[i].enbTeid == t
  }

  /** The eNB set bearer `e` of UE `u` up for S-GW TEID `s`. */
  ghost predicate CreatedWith(log: seq<Entry>, u: UeIndex, e: BearerId, s: Teid) {
    exists i :: 0 <= i < |log| && log[i].Opened? && log[i].ue == u && log[i].ebi == e && log[i].sgwTeid == s
  }

  /** One step of the system. An update pairs an S-GW TEID with an eNB TEID that answered a create
      carrying it. Entries may also vanish from the S-GW's table without a request: its hash
      table library removes entries other than the one asked for. */
  ghost predicate Step(s: System, ev: Event, s': System) {
    match ev
    case SgwCreate => HasFree(s.sgw.live) && s' == s.(sgw := Sgw.Create(s.sgw))
    case SgwUpdate(st, et, ip) => Answered(s.log, st, et) && s' == s.(sgw := Sgw.Update(s.sgw, st, et, ip))
    case SgwDelete(st) => s' == s.(sgw := Sgw.Delete(s.sgw, st))
    case SgwEntryLost(st) => s' == s.(sgw := Sgw.Delete(s.sgw, st))
    case EnbCreate(ue, items) =>
      && Room(s.enb.live, |items|)
      && var r := CreateAll(s.enb, ue, items);
      s' == s.(enb := r.state, log := s.log + Openings(ue, items, r.teids))
    case EnbDelete(ue, ebis) =>
      s' == s.(enb := DeleteAll(s.enb, ue, ebis).state, log := s.log + Closings(ue, ebis))
  }

  /** A downlink packet for S-GW TEID `sgwTeid`, followed to the eNB. */
  function Deliver(s: System, sgwTeid: Teid): Downlink {
    match Sgw.Send(s.sgw, sgwTeid)
    case NotMapped => Dropped
    case SentTo(t, _) => Receive(s.enb, t)
  }

  /** The number of TEIDs the eNB has handed out. */
  function Opens(log: seq<Entry>): nat {
    if log == [] then 0 else Opens(log[..|log| - 1]) + if log[|log| - 1].Opened? then 1 else 0
  }

  /** A bearer's latest opening that has not been closed since. */
  function Latest(log: seq<Entry>, u: UeIndex, e: BearerId): (r: Option<Entry>)
    ensures r.Some? ==> r.value.Opened? && r.value in log
  {
    if log == [] then None
    else
      var last := log[|log| - 1];
      if last.ue == u && last.ebi == e then (if last.Opened? then Some(last) else None)
      else Latest(log[..|log| - 1], u, e)
  }

  /** The IPv4 address last carried by an opening of the bearer since it was last closed, 0 if none. */
  function LastIp4(log: seq<Entry>, u: UeIndex, e: BearerId): uint32 {
    if log == [] then 0
    else
      var last := log[|log| - 1];
      if last.ue != u || last.ebi != e then LastIp4(log[..|log| - 1], u, e)
      else match last
        case Closed(_, _) => 0
        case Opened(_, _, _, V4(ip), _) => ip
        case Opened(_, _, _, V4V6(ip, _), _) => ip
        case Opened(_, _, _, V6(_), _) => LastIp4(log[..|log| - 1], u, e)
  }

  /** The IPv6 address last carried by an opening of the bearer; closing leaves it behind. */
  function LastIp6(log: seq<Entry>, u: UeIndex, e: BearerId): nat {
    if log == [] then 0
    else
      var last := log[|log| - 1];
      if last.ue != u || last.ebi != e then LastIp6(log[..|log| - 1], u, e)
      else match last
        case Opened(_, _, _, V6(ip6), _) => ip6
        case Opened(_, _, _, V4V6(_, ip6), _) => ip6
        case _ => LastIp6(log[..|log| - 1], u, e)
  }

  /** The UE had a bearer opened. */
  ghost predicate Known(log: seq<Entry>, u: UeIndex) {
    exists i :: 0 <= i < |log| && log[i].Opened? && log[i].ue == u
  }

  // ---------------------------------------------------------------- the invariant

  /** TEID `t` was handed out for bearer `o`. */
  ghost predicate OpenedFor(log: seq<Entry>, t: Teid, o: Owner) {
    exists i :: 0 <= i < |log| && log[i].Opened? && log[i].enbTeid == t && log[i].ue == o.ue && log[i].ebi == o.ebi
  }

  ghost predicate Numbered(log: seq<Entry>) {
    forall i :: 0 <= i < |log| && log[i].Opened? ==> log[i].enbTeid == Opens(log[..i + 1])
  }

  lemma OpenedForGrows(log: seq<Entry>, x: Entry, t: Teid, o: Owner)
    requires OpenedFor(log, t, o)
    ensures OpenedFor(log + [x], t, o)
  {
    var i :| 0 <= i < |log| && log[i].Opened? && log[i].enbTeid == t && log[i].ue == o.ue && log[i].ebi == o.ebi;
    assert (log + [x])[i] == log[i];
  }

  /** The k-th TEID handed out is k, the live ones are among those handed out, and a mapped TEID
      belongs to the bearer it was handed out for. */
  ghost predicate EnbInv(enb: EnbState, log: seq<Entry>) {
    && Synced(enb) && enb.counter == Opens(log)
    && (forall t :: t in enb.live ==> 1 <= t <= enb.counter)
    && Numbered(log)
    && OwnersOpened(enb.owners, log)
  }

  ghost predicate OwnersOpened(owners: map<Teid, Owner>, log: seq<Entry>) {
    forall t :: t in owners ==> OpenedFor(log, t, owners[t])
  }

  /** A bearer holds the TEIDs of its latest opening, is being configured while it has one and down
      otherwise, and holds the addresses last carried. */
  ghost predicate FollowsLog(b: Bearer, log: seq<Entry>, u: UeIndex, e: BearerId) {
    && b.sgwIp == LastIp4(log, u, e) && b.sgwIp6 == LastIp6(log, u, e)
    && match Latest(log, u, e)
       case None => b.teidEnb == 0 && b.teidSgw == 0 && b.state == DOWN
       case Some(o) => b.teidEnb == o.enbTeid && b.teidSgw == o.sgwTeid && b.state == IN_CONFIG
  }

  ghost predicate BearersFollowLog(enb: EnbState, log: seq<Entry>) {
    && (forall u: UeIndex, e: BearerId :: FollowsLog(BearerOf(enb, u, e), log, u, e))
    && (forall u: UeIndex :: u in enb.ues <==> Known(log, u))
  }

  /** The S-GW's table only pairs TEIDs that were answered together. */
  ghost predicate SgwInv(sgw: Sgw.SgwState, log: seq<Entry>) {
    && Sgw.MappedAreLive(sgw)
    && forall st :: st in sgw.s1u && sgw.s1u[st].teidEnb != 0 ==> Answered(log, st, sgw.s1u[st].teidEnb)
  }

  ghost predicate Inv(s: System) {
    EnbInv(s.enb, s.log) && BearersFollowLog(s.enb, s.log) && SgwInv(s.sgw, s.log)
  }

  lemma {:induction false} OpensMonotone(log: seq<Entry>, i: nat, j: nat)
    requires i <= j <= |log|
    ensures Opens(log[..i]) <= Opens(log[..j])
  {
    if i < j {
      assert log[..j][..j - 1] == log[..j - 1];
      OpensMonotone(log, i, j - 1);
    }
  }

  lemma OpensAppend(log: seq<Entry>, x: Entry)
    ensures Opens(log + [x]) == Opens(log) + if x.Opened? then 1 else 0
  {
    assert (log + [x])[..|log|] == log;
  }

  /** No TEID is handed out twice. */
  lemma OpenedTeidsDiffer(enb: EnbState, log: seq<Entry>, i: nat, j: nat)
    requires EnbInv(enb, log) && i < |log| && j < |log|
    requires log[i].Opened? && log[j].Opened? && log[i].enbTeid == log[j].enbTeid
    ensures i == j
  {
    var first, second := if i < j then i else j, if i < j then j else i;
    assert log[..second + 1] == log[..second] + [log[second]];
    OpensAppend(log[..second], log[second]);
    if first < second { OpensMonotone(log, first + 1, second); }
  }

  // ---------------------------------------------------------------- steps keep it

  lemma NextIsCounterPlusOne(enb: EnbState, log: seq<Entry>)
    requires EnbInv(enb, log) && Opens(log) + 1 < TWO_32
    ensures HasFree(enb.live) && NextTeid(enb) == enb.counter + 1
  {
    SuccessorIsFree(enb.counter, enb.live);
  }

  lemma NumberedGrows(log: seq<Entry>, x: Entry)
    requires Numbered(log) && (x.Opened? ==> x.enbTeid == Opens(log) + 1)
    ensures Numbered(log + [x]) && Opens(log + [x]) == Opens(log) + if x.Opened? then 1 else 0
  {
    var log' := log + [x];
    OpensAppend(log, x);
    forall i | 0 <= i <= |log| && log'[i].Opened? ensures log'[i].enbTeid == Opens(log'[..i + 1]) {
      if i < |log| { assert log'[..i + 1] == log[..i + 1]; } else { assert log'[..i + 1] == log'; }
    }
  }

  lemma OwnersGrow(owners: map<Teid, Owner>, log: seq<Entry>, x: Entry)
    requires OwnersOpened(owners, log)
    ensures OwnersOpened(owners, log + [x])
    ensures x.Opened? ==> OwnersOpened(owners[x.enbTeid := Owner(x.ue, x.ebi)], log + [x])
  {
    assert (log + [x])[|log|] == x;
    forall t | t in owners ensures OpenedFor(log + [x], t, owners[t]) {
      OpenedForGrows(log, x, t, owners[t]);
    }
    if x.Opened? { assert OpenedFor(log + [x], x.enbTeid, Owner(x.ue, x.ebi)); }
  }

  lemma OpenKeepsEnbInv(enb: EnbState, log: seq<Entry>, ue: UeIndex, item: TunnelToSetUp, x: Entry)
    requires EnbInv(enb, log) && Opens(log) + 1 < TWO_32
    requires HasFree(enb.live) && x == Opened(ue, item.ebi, item.sgwTeid, item.sgwAddr, NextTeid(enb))
    ensures EnbInv(CreateOne(enb, ue, item), log + [x])
  {
    NextIsCounterPlusOne(enb, log);
    CreateMapsFresh(enb, ue, item);
    NumberedGrows(log, x);
    OwnersGrow(enb.owners, log, x);
  }

  lemma KnownOneMore(log: seq<Entry>, x: Entry, u: UeIndex)
    ensures Known(log + [x], u) <==> Known(log, u) || (x.Opened? && x.ue == u)
  {
    var log' := log + [x];
    assert log'[|log|] == x && forall i :: 0 <= i < |log| ==> log'[i] == log[i];
  }

  lemma OpenKeepsBearers(enb: EnbState, log: seq<Entry>, ue: UeIndex, item: TunnelToSetUp, x: Entry)
    requires BearersFollowLog(enb, log)
    requires HasFree(enb.live) && x == Opened(ue, item.ebi, item.sgwTeid, item.sgwAddr, NextTeid(enb))
    ensures BearersFollowLog(CreateOne(enb, ue, item), log + [x])
  {
    assert (log + [x])[..|log|] == log;
    forall u: UeIndex, e: BearerId ensures FollowsLog(BearerOf(CreateOne(enb, ue, item), u, e), log + [x], u, e) {
      assert FollowsLog(BearerOf(enb, u, e), log, u, e);
      BearerAfterCreate(enb, ue, item, u, e);
    }
    forall u: UeIndex { KnownOneMore(log, x, u); }
  }

  lemma CloseKeepsEnb(enb: EnbState, log: seq<Entry>, ue: UeIndex, e: BearerId)
    requires EnbInv(enb, log) && BearersFollowLog(enb, log) && ue in enb.ues
    ensures EnbInv(DeleteOne(enb, ue, e), log + [Closed(ue, e)])
    ensures BearersFollowLog(DeleteOne(enb, ue, e), log + [Closed(ue, e)])
  {
    var enb', x := DeleteOne(enb, ue, e), Closed(ue, e);
    var log' := log + [x];
    assert log'[..|log|] == log;
    DeleteOneKeeps(enb, ue, e);
    NumberedGrows(log, x);
    OwnersGrow(enb.owners, log, x);
    forall u: UeIndex, d: BearerId ensures FollowsLog(BearerOf(enb', u, d), log', u, d) {
      assert FollowsLog(BearerOf(enb, u, d), log, u, d);
      BearerAfterDelete(enb, ue, e, u, d);
    }
    forall u: UeIndex { KnownOneMore(log, x, u); }
  }

  /** Closing a bearer of an unknown UE changes nothing, and there was nothing open. */
  lemma CloseUnknown(enb: EnbState, log: seq<Entry>, ue: UeIndex, e: BearerId)
    requires EnbInv(enb, log) && BearersFollowLog(enb, log) && ue !in enb.ues
    ensures EnbInv(enb, log + [Closed(ue, e)]) && BearersFollowLog(enb, log + [Closed(ue, e)])
  {
    var x := Closed(ue, e);
    var log' := log + [x];
    assert log'[..|log|] == log;
    NumberedGrows(log, x);
    OwnersGrow(enb.owners, log, x);
    assert BearerOf(enb, ue, e) == NO_BEARER;
    forall u: UeIndex, d: BearerId ensures FollowsLog(BearerOf(enb, u, d), log', u, d) {
      assert FollowsLog(BearerOf(enb, u, d), log, u, d);
    }
    forall u: UeIndex { KnownOneMore(log, x, u); }
  }

  lemma OpeningsLast(log: seq<Entry>, ue: UeIndex, items: seq<TunnelToSetUp>, teids: seq<Teid>, t: Teid)
    requires |items| == |teids| + 1
    ensures log + Openings(ue, items, teids + [t])
            == log + Openings(ue, items[..|teids|], teids)
               + [Opened(ue, items[|teids|].ebi, items[|teids|].sgwTeid, items[|teids|].sgwAddr, t)]
  {}

  lemma {:induction false} CreateKeepsEnb(enb: EnbState, log: seq<Entry>, ue: UeIndex, items: seq<TunnelToSetUp>)
    requires EnbInv(enb, log) && BearersFollowLog(enb, log) && Room(enb.live, |items|)
    requires Opens(log) + |items| < TWO_32
    ensures var r := CreateAll(enb, ue, items);
      var log' := log + Openings(ue, items, r.teids);
      EnbInv(r.state, log') && BearersFollowLog(r.state, log') && Opens(log') == Opens(log) + |items|
  {
    var r := CreateAll(enb, ue, items);
    if items == [] {
      assert log + Openings(ue, items, r.teids) == log;
    } else {
      var n := |items| - 1;
      var front, last := items[..n], items[n];
      CreateKeepsEnb(enb, log, ue, front);
      CreateAllTeids(enb, ue, front);
      var a, t := LastCreate(enb, ue, items);
      var mid := log + Openings(ue, front, a.teids);
      var x := Opened(ue, last.ebi, last.sgwTeid, last.sgwAddr, t);
      OpeningsLast(log, ue, items, a.teids, t);
      OpenKeepsEnbInv(a.state, mid, ue, last, x);
      OpenKeepsBearers(a.state, mid, ue, last, x);
      OpensAppend(mid, x);
    }
  }

  lemma DeleteAllLast(enb: EnbState, ue: UeIndex, ebis: seq<BearerId>)
    requires ebis != []
    ensures var n := |ebis| - 1; var a := DeleteAll(enb, ue, ebis[..n]).state;
      && (ue in a.ues <==> ue in enb.ues)
      && DeleteAll(enb, ue, ebis).state == if ue in enb.ues then DeleteOne(a, ue, ebis[n]) else a
  {}

  lemma {:induction false} DeleteKeepsEnb(enb: EnbState, log: seq<Entry>, ue: UeIndex, ebis: seq<BearerId>)
    requires EnbInv(enb, log) && BearersFollowLog(enb, log)
    ensures var s' := DeleteAll(enb, ue, ebis).state;
      var log' := log + Closings(ue, ebis);
      EnbInv(s', log') && BearersFollowLog(s', log') && Opens(log') == Opens(log)
  {
    if ebis == [] {
      assert log + Closings(ue, ebis) == log;
    } else {
      var n := |ebis| - 1;
      DeleteKeepsEnb(enb, log, ue, ebis[..n]);
      var mid, a := log + Closings(ue, ebis[..n]), DeleteAll(enb, ue, ebis[..n]).state;
      assert log + Closings(ue, ebis) == mid + [Closed(ue, ebis[n])];
      OpensAppend(mid, Closed(ue, ebis[n]));
      DeleteAllLast(enb, ue, ebis);
      if ue in enb.ues {
        CloseKeepsEnb(a, mid, ue, ebis[n]);
      } else {
        CloseUnknown(a, mid, ue, ebis[n]);
      }
    }
  }

  lemma AnsweredGrows(log: seq<Entry>, more: seq<Entry>, s: Teid, t: Teid)
    requires Answered(log, s, t)
    ensures Answered(log + more, s, t)
  {
    var i :| 0 <= i < |log| && log[i].Opened? && log[i].sgwTeid == s && log[i].enbTeid == t;
    assert (log + more)[i] == log[i];
  }

  lemma StepKeepsInv(s: System, ev: Event, s': System)
    requires Inv(s) && Step(s, ev, s') && Opens(s.log) + (if ev.EnbCreate? then |ev.items| else 0) < TWO_32
    ensures Inv(s') && Opens(s'.log) == Opens(s.log) + if ev.EnbCreate? then |ev.items| else 0
  {
    match ev {
      case SgwCreate => Sgw.CreateNeverFails(s.sgw);
      case SgwUpdate(st, et, ip) =>
      case SgwDelete(st) =>
      case SgwEntryLost(st) =>
      case EnbCreate(ue, items) =>
        CreateKeepsEnb(s.enb, s.log, ue, items);
        SgwInvGrows(s.sgw, s.log, Openings(ue, items, CreateAll(s.enb, ue, items).teids));
      case EnbDelete(ue, ebis) =>
        DeleteKeepsEnb(s.enb, s.log, ue, ebis);
        SgwInvGrows(s.sgw, s.log, Closings(ue, ebis));
    }
  }

  lemma SgwInvGrows(sgw: Sgw.SgwState, log: seq<Entry>, more: seq<Entry>)
    requires SgwInv(sgw, log)
    ensures SgwInv(sgw, log + more)
  {
    forall st | st in sgw.s1u && sgw.s1u[st].teidEnb != 0
      ensures Answered(log + more, st, sgw.s1u[st].teidEnb)
    {
      AnsweredGrows(log, more, st, sgw.s1u[st].teidEnb);
    }
  }

  // ---------------------------------------------------------------- every run

  /** The number of TEIDs the create requests of a run ask for. */
  function Draws(events: seq<Event>): nat {
    if events == [] then 0
    else
      var last := events[|events| - 1];
      Draws(events[..|events| - 1]) + if last.EnbCreate? then |last.items| else 0
  }

  ghost predicate IsRun(states: seq<System>, events: seq<Event>) {
    && |states| == |events| + 1 && states[0] == INITIAL
    && forall i :: 0 <= i < |events| ==> Step(states[i], events[i], states[i + 1])
  }

  lemma {:induction false} EveryRunKeepsInv(states: seq<System>, events: seq<Event>)
    requires IsRun(states, events) && Draws(events) < TWO_32
    ensures Inv(states[|events|]) && Opens(states[|events|].log) == Draws(events)
  {
    if events != [] {
      var n := |events| - 1;
      assert IsRun(states[..n + 1], events[..n]);
      EveryRunKeepsInv(states[..n + 1], events[..n]);
      assert Step(states[n], events[n], states[n + 1]);
      StepKeepsInv(states[n], events[n], states[n + 1]);
    }
  }

  /** No misdelivery. In any run with fewer than 2^32 draws, a downlink packet for an S-GW TEID
      either is dropped or reaches the radio bearer of a bearer created with that S-GW TEID. */
  lemma DownlinkReachesItsBearer(states: seq<System>, events: seq<Event>, sgwTeid: Teid)
    requires IsRun(states, events) && Draws(events) < TWO_32
    ensures var s := states[|events|];
      var d := Deliver(s, sgwTeid);
      d.ToPdcp? ==> CreatedWith(s.log, d.ue, d.drb + 4, sgwTeid)
  {
    var s := states[|events|];
    EveryRunKeepsInv(states, events);
    if Deliver(s, sgwTeid).ToPdcp? {
      var t := s.sgw.s1u[sgwTeid].teidEnb;
      assert Answered(s.log, sgwTeid, t);
      var i :| 0 <= i < |s.log| && s.log[i].Opened? && s.log[i].sgwTeid == sgwTeid && s.log[i].enbTeid == t;
      var j :| 0 <= j < |s.log| && s.log[j].Opened? && s.log[j].enbTeid == t
               && s.log[j].ue == s.enb.owners[t].ue && s.log[j].ebi == s.enb.owners[t].ebi;
      OpenedTeidsDiffer(s.enb, s.log, i, j);
    }
  }

  /** What an uplink packet on radio access bearer `rab` turns into, by the history alone: for a UE that
      never had a bearer nothing; for an identifier from 3 to 31 a packet with the S-GW TEID of the
      bearer's latest create, or 0 when it is not set up, to the IPv4 address last carried by a create
      since the last delete, or 0; for 32 a read past the array; nothing otherwise. */
  lemma UplinkUsesLatestTeid(states: seq<System>, events: seq<Event>, u: UeIndex, rab: uint8)
    requires IsRun(states, events) && Draws(events) < TWO_32
    ensures var s := states[|events|];
      var up := EnbTunnels.Send(s.enb, u, rab);
      if !Known(s.log, u) then up == NoUe
      else if 3 <= rab < 32 then
        && up.Sent? && up.sgwIp == LastIp4(s.log, u, rab)
        && up.teidSgw == (match Latest(s.log, u, rab) case None => 0 case Some(o) => o.sgwTeid)
      else up == if rab == 32 then PastTheArray else Ignored
  {
    EveryRunKeepsInv(states, events);
    var s := states[|events|];
    if 3 <= rab < 32 { assert FollowsLog(BearerOf(s.enb, u, rab), s.log, u, rab); }
  }

  /** Everything the eNB stores about a bearer, by the history alone. */
  lemma BearersFollowHistory(states: seq<System>, events: seq<Event>, u: UeIndex, e: BearerId)
    requires IsRun(states, events) && Draws(events) < TWO_32
    ensures var s := states[|events|];
      var b := BearerOf(s.enb, u, e);
      && b.sgwIp == LastIp4(s.log, u, e) && b.sgwIp6 == LastIp6(s.log, u, e)
      && match Latest(s.log, u, e)
         case None => b.state == DOWN && b.teidEnb == 0 && b.teidSgw == 0
         case Some(o) => b.state == IN_CONFIG && b.teidEnb == o.enbTeid && b.teidSgw == o.sgwTeid
  {
    EveryRunKeepsInv(states, events);
    assert FollowsLog(BearerOf(states[|events|].enb, u, e), states[|events|].log, u, e);
  }

  /** A holder of the TEID an S-GW TEID is mapped to was opened for that S-GW TEID. */
  lemma HolderWasOpenedFor(s: System, sgwTeid: Teid, u: UeIndex, e: BearerId)
    requires Inv(s) && sgwTeid in s.sgw.s1u && s.sgw.s1u[sgwTeid].teidEnb != 0
    requires TeidOf(s.enb, u, e) == s.sgw.s1u[sgwTeid].teidEnb
    ensures BearerOf(s.enb, u, e).teidSgw == sgwTeid
  {
    var t := s.sgw.s1u[sgwTeid].teidEnb;
    assert FollowsLog(BearerOf(s.enb, u, e), s.log, u, e);
    var o := Latest(s.log, u, e).value;
    var i :| 0 <= i < |s.log| && s.log[i] == o;
    assert Answered(s.log, sgwTeid, t);
    var j :| 0 <= j < |s.log| && s.log[j].Opened? && s.log[j].sgwTeid == sgwTeid && s.log[j].enbTeid == t;
    OpenedTeidsDiffer(s.enb, s.log, i, j);
  }

  /** The bearer a downlink packet for an S-GW TEID reaches sends its uplink to that same TEID. */
  ghost predicate Meet(s: System, sgwTeid: Teid) {
    var d := Deliver(s, sgwTeid);
    d.ToPdcp? ==> BearerOf(s.enb, d.ue, d.drb + 4).teidSgw == sgwTeid
  }

  ghost predicate HoldersOpenedFor(s: System, sgwTeid: Teid) {
    sgwTeid in s.sgw.s1u && s.sgw.s1u[sgwTeid].teidEnb != 0 ==>
      forall u: UeIndex, e: BearerId :: TeidOf(s.enb, u, e) == s.sgw.s1u[sgwTeid].teidEnb ==> BearerOf(s.enb, u, e).teidSgw == sgwTeid
  }

  lemma HoldersWereOpenedFor(s: System, sgwTeid: Teid)
    requires Inv(s)
    ensures HoldersOpenedFor(s, sgwTeid) && 0 !in s.enb.live
  {
    if sgwTeid in s.sgw.s1u && s.sgw.s1u[sgwTeid].teidEnb != 0 {
      forall u: UeIndex, e: BearerId | TeidOf(s.enb, u, e) == s.sgw.s1u[sgwTeid].teidEnb
        ensures BearerOf(s.enb, u, e).teidSgw == sgwTeid
      {
        HolderWasOpenedFor(s, sgwTeid, u, e);
      }
    }
  }

  lemma InverseTablesMeet(s: System, sgwTeid: Teid)
    requires HoldersOpenedFor(s, sgwTeid) && 0 !in s.enb.live && Synced(s.enb) && Inverse(s.enb)
    ensures Meet(s, sgwTeid)
  {
    if Deliver(s, sgwTeid).ToPdcp? {
      ReceivedIsHeld(s.enb, s.sgw.s1u[sgwTeid].teidEnb);
    }
  }

  /** When moreover every create named distinct bearers without a TEID, the two directions meet. */
  lemma DirectionsMeet(states: seq<System>, events: seq<Event>, sgwTeid: Teid)
    requires IsRun(states, events) && Draws(events) < TWO_32
    requires forall j :: 0 <= j < |events| && events[j].EnbCreate? ==>
               CleanCreate(states[j].enb, events[j].ue, events[j].items)
    ensures Meet(states[|events|], sgwTeid)
  {
    EveryRunKeepsInv(states, events);
    CleanRunIsInverse(states, events, |events|);
    HoldersWereOpenedFor(states[|events|], sgwTeid);
    InverseTablesMeet(states[|events|], sgwTeid);
  }

  lemma {:induction false} CleanRunIsInverse(states: seq<System>, events: seq<Event>, i: nat)
    requires IsRun(states, events) && i < |states|
    requires forall j :: 0 <= j < |events| && events[j].EnbCreate? ==>
               CleanCreate(states[j].enb, events[j].ue, events[j].items)
    ensures Synced(states[i].enb) && Inverse(states[i].enb)
  {
    if i > 0 {
      CleanRunIsInverse(states, events, i - 1);
      assert Step(states[i - 1], events[i - 1], states[i]);
      match events[i - 1] {
        case EnbCreate(ue, items) =>
          CreateAllTeids(states[i - 1].enb, ue, items);
          CreateAllKeepsInverse(states[i - 1].enb, ue, items);
        case EnbDelete(ue, ebis) =>
          if ue in states[i - 1].enb.ues { DeleteEachKeeps(states[i - 1].enb, ue, ebis); }
        case _ =>
      }
    }
  }

  lemma {:induction false} SgwEndpointsStayLive(states: seq<System>, events: seq<Event>, n: nat)
    requires IsRun(states, events) && n < |states|
    ensures Sgw.MappedAreLive(states[n].sgw)
  {
    if n > 0 {
      SgwEndpointsStayLive(states, events, n - 1);
      assert Step(states[n - 1], events[n - 1], states[n]);
      if events[n - 1].SgwCreate? { Sgw.CreateNeverFails(states[n - 1].sgw); }
    }
  }

  /** On the S-GW too, every create of a run answers success, however long the run. */
  lemma SgwCreatesSucceed(states: seq<System>, events: seq<Event>)
    requires IsRun(states, events) && HasFree(states[|events|].sgw.live)
    ensures Sgw.NextTeid(states[|events|].sgw) !in states[|events|].sgw.s1u
  {
    SgwEndpointsStayLive(states, events, |events|);
    Sgw.CreateNeverFails(states[|events|].sgw);
  }
}
