/**
 The S-GW side of the S1-U tunnels: one table from the S-GW's own TEIDs to the eNB endpoints.
 */
module SgwTunnels {
  import opened Common
  import opened TeidAllocation

  const UDP_PORT: uint16 := 2152

  datatype BearerState = DOWN | IN_CONFIG | UP

  datatype EnbEndpoint = EnbEndpoint(teidEnb: Teid, enbIp: uint32, state: BearerState, port: uint16)

  const UNKNOWN_ENB := EnbEndpoint(0, 0, IN_CONFIG, 0)

  datatype SgwState = SgwState(counter: Teid, live: set<Teid>, s1u: map<Teid, EnbEndpoint>)

  const EMPTY_SGW := SgwState(0, {}, map[])

  datatype Status = Success | Failed

  ghost function NextTeid(s: SgwState): Teid
    requires HasFree(s.live)
  {
    Nth(s.counter, FirstFree(s.counter, s.live))
  }

  /** A create draws a TEID; a TEID already in the table would be answered as a failure. */
  ghost function Create(s: SgwState): SgwState
    requires HasFree(s.live)
  {
    var t := NextTeid(s);
    SgwState(t, s.live + {t}, if t in s.s1u then s.s1u else s.s1u[t := UNKNOWN_ENB])
  }

  function Update(s: SgwState, sgwTeid: Teid, enbTeid: Teid, enbIp: uint32): SgwState {
    if sgwTeid in s.s1u then s.(s1u := s.s1u[sgwTeid := EnbEndpoint(enbTeid, enbIp, UP, UDP_PORT)]) else s
  }

  /** A delete drops the table entry only: the stack keeps the endpoint. */
  function Delete(s: SgwState, sgwTeid: Teid): SgwState {
    s.(s1u := s.s1u - {sgwTeid})
  }

  datatype Sending = NotMapped | SentTo(teidEnb: Teid, enbIp: uint32)

  /** Where a packet for the S-GW's own TEID `sgwTeid` is sent. */
  function Send(s: SgwState, sgwTeid: Teid): Sending {
    if sgwTeid in s.s1u then SentTo(s.s1u[sgwTeid].teidEnb, s.s1u[sgwTeid].enbIp) else NotMapped
  }

  class SgwGtpu {
    const source: TeidSource
    var s1uMapping: map<Teid, EnbEndpoint>

    constructor ()
      ensures State() == EMPTY_SGW && fresh(source)
    {
      source := new TeidSource();
      s1uMapping := map[];
    }

    function State(): SgwState
      reads this, source
    {
      SgwState(source.counter, source.live, s1uMapping)
    }

    method CreateTunnel() returns (teid: Teid, status: Status)
      requires HasFree(source.live)
      modifies this, source
      ensures State() == Create(old(State())) && teid == NextTeid(old(State()))
      ensures status == if teid in old(s1uMapping) then Failed else Success
    {
      teid := source.Draw();
      if teid !in s1uMapping {
        s1uMapping := s1uMapping[teid := UNKNOWN_ENB];
        status := Success;
      } else {
        status := Failed;
      }
    }

    method DeleteTunnel(sgwTeid: Teid) returns (status: Status)
      modifies this
      ensures State() == Delete(old(State()), sgwTeid)
      ensures status == if sgwTeid in old(s1uMapping) then Success else Failed
    {
      status := if sgwTeid in s1uMapping then Success else Failed;
      s1uMapping := s1uMapping - {sgwTeid};
    }

    method UpdateTunnel(sgwTeid: Teid, enbTeid: Teid, enbIp: uint32) returns (status: Status)
      modifies this
      ensures State() == Update(old(State()), sgwTeid, enbTeid, enbIp)
      ensures status == if sgwTeid in old(s1uMapping) then Success else Failed
    {
      if sgwTeid in s1uMapping {
        var info := s1uMapping[sgwTeid];
        info := info.(teidEnb := enbTeid);
        info := info.(enbIp := enbIp);
        info := info.(state := UP);
        info := info.(port := UDP_PORT);
        s1uMapping := s1uMapping[sgwTeid := info];
        status := Success;
      } else {
        status := Failed;
      }
    }

    method HandleTunnelDataReq(sgwTeid: Teid) returns (r: Sending)
      ensures r == Send(State(), sgwTeid)
    {
      r := if sgwTeid in s1uMapping then SentTo(s1uMapping[sgwTeid].teidEnb, s1uMapping[sgwTeid].enbIp) else NotMapped;
    }
  }

  /** Every mapped TEID has a live stack endpoint. */
  ghost predicate MappedAreLive(s: SgwState) {
    s.s1u.Keys <= s.live
  }

  /** So a create never finds its TEID in the table, and always answers success. */
  lemma CreateNeverFails(s: SgwState)
    requires MappedAreLive(s) && HasFree(s.live)
    ensures NextTeid(s) !in s.s1u && MappedAreLive(Create(s))
    ensures Create(s).s1u == s.s1u[NextTeid(s) := UNKNOWN_ENB]
  {}

  // ---------------------------------------------------------------- every run

  datatype Event = CreateReq | UpdateReq(sgwTeid: Teid, enbTeid: Teid, enbIp: uint32) | DeleteReq(sgwTeid: Teid)

  ghost predicate Step(s: SgwState, ev: Event, s': SgwState) {
    match ev
    case CreateReq => HasFree(s.live) && s' == Create(s)
    case UpdateReq(t, e, ip) => s' == Update(s, t, e, ip)
    case DeleteReq(t) => s' == Delete(s, t)
  }

  ghost predicate IsRun(states: seq<SgwState>, events: seq<Event>) {
    && |states| == |events| + 1 && states[0] == EMPTY_SGW
    && forall i :: 0 <= i < |events| ==> Step(states[i], events[i], states[i + 1])
  }

  /** Event `i` is the create that answered TEID `t`. */
  ghost predicate Creates(states: seq<SgwState>, events: seq<Event>, i: nat, t: Teid)
    requires |states| == |events| + 1
  {
    i < |events| && events[i].CreateReq? && HasFree(states[i].live) && NextTeid(states[i]) == t
  }

  /** The endpoint of the latest update of `t` among events `from` to `to`, 0 where there was none. */
  function LatestUpdate(events: seq<Event>, from: nat, to: nat, t: Teid): Sending
    requires to <= |events|
  {
    if to <= from then SentTo(0, 0)
    else
      var last := events[to - 1];
      if last.UpdateReq? && last.sgwTeid == t then SentTo(last.enbTeid, last.enbIp)
      else LatestUpdate(events, from, to - 1, t)
  }

  ghost predicate NotDeleted(events: seq<Event>, from: nat, to: nat, t: Teid) {
    forall j :: from <= j < to && j < |events| ==> events[j] != DeleteReq(t)
  }

  /** `t` was created by event `i`, not deleted since, and last updated to the endpoint of `r`. */
  ghost predicate RoutedSince(states: seq<SgwState>, events: seq<Event>, n: nat, i: nat, t: Teid, r: Sending)
    requires |states| == |events| + 1 && n <= |events|
  {
    i < n && Creates(states, events, i, t) && NotDeleted(events, i + 1, n, t) && LatestUpdate(events, i + 1, n, t) == r
  }

  lemma {:induction false} MappedStayLive(states: seq<SgwState>, events: seq<Event>, n: nat)
    requires IsRun(states, events) && n < |states|
    ensures MappedAreLive(states[n])
    ensures forall i: nat, t: Teid :: i < n && Creates(states, events, i, t) ==> t in states[n].live
  {
    if n > 0 {
      MappedStayLive(states, events, n - 1);
      assert Step(states[n - 1], events[n - 1], states[n]);
      if events[n - 1].CreateReq? { CreateNeverFails(states[n - 1]); }
    }
  }

  lemma RouteOneMore(states: seq<SgwState>, events: seq<Event>, n: nat, i: nat, t: Teid, r: Sending)
    requires IsRun(states, events) && 0 < n <= |events| && i < n - 1
    ensures RoutedSince(states, events, n, i, t, r) <==>
      && events[n - 1] != DeleteReq(t)
      && if events[n - 1].UpdateReq? && events[n - 1].sgwTeid == t
         then r == SentTo(events[n - 1].enbTeid, events[n - 1].enbIp)
              && RoutedSince(states, events, n - 1, i, t, LatestUpdate(events, i + 1, n - 1, t))
         else RoutedSince(states, events, n - 1, i, t, r)
  {
    assert NotDeleted(events, i + 1, n, t) <==> NotDeleted(events, i + 1, n - 1, t) && events[n - 1] != DeleteReq(t);
  }

  ghost predicate Routed(states: seq<SgwState>, events: seq<Event>, n: nat, t: Teid, r: Sending)
    requires |states| == |events| + 1 && n <= |events|
  {
    exists i: nat :: RoutedSince(states, events, n, i, t, r)
  }

  /** A TEID is created at most once: its endpoint stays live for ever. */
  lemma CreatedOnce(states: seq<SgwState>, events: seq<Event>, n: nat, t: Teid, r: Sending)
    requires IsRun(states, events) && n < |events| && Creates(states, events, n, t)
    ensures Send(states[n], t) == NotMapped && !Routed(states, events, n, t, r)
    ensures Routed(states, events, n + 1, t, r) <==> r == SentTo(0, 0)
  {
    MappedStayLive(states, events, n);
    assert forall i: nat :: i < n ==> !Creates(states, events, i, t);
    var m := n + 1;
    if r == SentTo(0, 0) { assert RoutedSince(states, events, m, n, t, r); }
    if i: nat :| RoutedSince(states, events, m, i, t, r) { assert i == n; }
  }

  /** Any other event: the routes that last are those the event does not concern. */
  lemma RoutedOneMore(states: seq<SgwState>, events: seq<Event>, n: nat, t: Teid, r: Sending)
    requires IsRun(states, events) && n < |events| && !Creates(states, events, n, t)
    ensures Routed(states, events, n + 1, t, r) <==>
      && events[n] != DeleteReq(t)
      && if events[n].UpdateReq? && events[n].sgwTeid == t
         then r == SentTo(events[n].enbTeid, events[n].enbIp) && exists r' :: Routed(states, events, n, t, r')
         else Routed(states, events, n, t, r)
  {
    var m := n + 1;
    if i: nat :| RoutedSince(states, events, m, i, t, r) {
      RouteOneMore(states, events, m, i, t, r);
      assert Routed(states, events, n, t, LatestUpdate(events, i + 1, n, t));
    }
    forall i: nat, r' | RoutedSince(states, events, n, i, t, r')
      ensures RoutedSince(states, events, m, i, t, LatestUpdate(events, i + 1, m, t)) || events[n] == DeleteReq(t)
    {
      RouteOneMore(states, events, m, i, t, LatestUpdate(events, i + 1, m, t));
    }
  }

  ghost predicate RoutesAreSends(states: seq<SgwState>, events: seq<Event>, n: nat, t: Teid)
    requires |states| == |events| + 1 && n <= |events|
  {
    forall r :: Routed(states, events, n, t, r) <==> r.SentTo? && Send(states[n], t) == r
  }

  /** How one event that does not create `t` changes where packets for `t` go. */
  lemma SendOneMore(s: SgwState, ev: Event, s': SgwState, t: Teid)
    requires Step(s, ev, s') && (ev.CreateReq? ==> NextTeid(s) != t)
    ensures Send(s', t) ==
      if ev == DeleteReq(t) then NotMapped
      else if ev.UpdateReq? && ev.sgwTeid == t && Send(s, t).SentTo? then SentTo(ev.enbTeid, ev.enbIp)
      else Send(s, t)
  {}

  lemma RoutesStaySends(states: seq<SgwState>, events: seq<Event>, n: nat, t: Teid)
    requires IsRun(states, events) && n < |events| && RoutesAreSends(states, events, n, t)
    ensures RoutesAreSends(states, events, n + 1, t)
  {
    var s, ev, s' := states[n], events[n], states[n + 1];
    assert Step(s, ev, s');
    forall r ensures Routed(states, events, n + 1, t, r) <==> r.SentTo? && Send(s', t) == r {
      if Creates(states, events, n, t) {
        CreatedOnce(states, events, n, t, r);
      } else {
        SendOneMore(s, ev, s', t);
        RoutedOneMore(states, events, n, t, r);
        assert Routed(states, events, n, t, Send(s, t)) <==> Send(s, t).SentTo?;
      }
    }
  }

  lemma {:induction false} EveryRouteIsSend(states: seq<SgwState>, events: seq<Event>, n: nat, t: Teid)
    requires IsRun(states, events) && n <= |events|
    ensures RoutesAreSends(states, events, n, t)
  {
    if n > 0 {
      EveryRouteIsSend(states, events, n - 1, t);
      RoutesStaySends(states, events, n - 1, t);
    }
  }

  /** Where packets go in every run: a packet for TEID `t` is sent to an endpoint exactly when `t`
      was created, was not deleted since, and was last updated to that endpoint. */
  lemma PacketsFollowLatestUpdate(states: seq<SgwState>, events: seq<Event>, n: nat, t: Teid, r: Sending)
    requires IsRun(states, events) && n <= |events| && r.SentTo?
    ensures Send(states[n], t) == r <==> exists i: nat :: RoutedSince(states, events, n, i, t, r)
  {
    EveryRouteIsSend(states, events, n, t);
    assert Routed(states, events, n, t, r) <==> Send(states[n], t) == r;
  }

  ghost predicate UpdatedSince(events: seq<Event>, from: nat, to: nat, t: Teid) {
    exists j :: from <= j < to && j < |events| && events[j].UpdateReq? && events[j].sgwTeid == t
  }

  /** The endpoint of `t`, created by event `i`: up on the GTP-U port once updated, blank before. */
  ghost predicate EndpointSince(states: seq<SgwState>, events: seq<Event>, n: nat, i: nat, t: Teid)
    requires n <= |events| && |states| == |events| + 1 && t in states[n].s1u
  {
    && i < n && Creates(states, events, i, t) && NotDeleted(events, i + 1, n, t)
    && var e := states[n].s1u[t];
    if UpdatedSince(events, i + 1, n, t) then e.state == UP && e.port == 2152
    else e == EnbEndpoint(0, 0, IN_CONFIG, 0)
  }

  lemma UpdatedOneMore(events: seq<Event>, from: nat, n: nat, t: Teid)
    requires from <= n < |events|
    ensures UpdatedSince(events, from, n + 1, t) <==>
            UpdatedSince(events, from, n, t) || (events[n].UpdateReq? && events[n].sgwTeid == t)
  {
    if events[n].UpdateReq? && events[n].sgwTeid == t { assert from <= n < n + 1; }
  }

  /** Over every run: a mapped TEID was created and not deleted since, and its endpoint is up on port
      2152 exactly when it was updated since. */
  lemma {:induction false} EndpointsAreUpIffUpdated(states: seq<SgwState>, events: seq<Event>, n: nat, t: Teid) returns (i: nat)
    requires IsRun(states, events) && n <= |events| && t in states[n].s1u
    ensures EndpointSince(states, events, n, i, t)
  {
    var ev := events[n - 1];
    assert Step(states[n - 1], ev, states[n]);
    if t !in states[n - 1].s1u {
      i := n - 1;
    } else {
      i := EndpointsAreUpIffUpdated(states, events, n - 1, t);
      UpdatedOneMore(events, i + 1, n - 1, t);
      assert ev != DeleteReq(t);
    }
  }
}
