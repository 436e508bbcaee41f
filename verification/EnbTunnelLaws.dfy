/** What every run of the eNB's tunnel handlers keeps, and what a delete undoes. */
module EnbTunnelLaws {
  import opened Common
  import opened TeidAllocation
  import opened EnbTunnels

  /** The mapped TEIDs are exactly the live stack endpoints. */
  ghost predicate Synced(s: EnbState) {
    s.live == s.owners.Keys
  }

  /** The two tables are each other's inverse on non-zero TEIDs. */
  ghost predicate Inverse(s: EnbState) {
    && (forall u: UeIndex, e: BearerId :: TeidOf(s, u, e) != 0 ==>
          TeidOf(s, u, e) in s.owners && s.owners[TeidOf(s, u, e)] == Owner(u, e))
    && (forall t :: t in s.owners && t != 0 ==> TeidOf(s, s.owners[t].ue, s.owners[t].ebi) == t)
  }

  /** So no TEID serves two bearers. */
  lemma InverseIsInjective(s: EnbState, u1: UeIndex, e1: BearerId, u2: UeIndex, e2: BearerId)
    requires Inverse(s) && TeidOf(s, u1, e1) == TeidOf(s, u2, e2) != 0
    ensures u1 == u2 && e1 == e2
  {
    assert s.owners[TeidOf(s, u1, e1)] == Owner(u1, e1);
  }

  ghost predicate Delivers(d: Downlink, u: UeIndex, drb: int) {
    d.ToPdcp? && d.ue == u && d.drb == drb
  }

  /** What receiving means while the tables are inverse: a T-PDU on a non-zero TEID reaches radio bearer
      `drb` exactly when EPS bearer `drb` + 4 of the UE is the holder of the TEID, and is dropped
      exactly when no bearer holds it. */
  lemma ReceiveReachesHolder(s: EnbState, t: Teid, u: UeIndex, drb: int)
    requires Synced(s) && Inverse(s) && t != 0
    ensures Delivers(Receive(s, t), u, drb) <==> 3 <= drb + 4 < 32 && TeidOf(s, u, drb + 4) == t
    ensures Receive(s, t) == Dropped <==> forall v: UeIndex, d: BearerId :: TeidOf(s, v, d) != t
  {
    if t in s.owners { assert TeidOf(s, s.owners[t].ue, s.owners[t].ebi) == t; }
  }

  lemma ReceivedIsHeld(s: EnbState, t: Teid)
    requires Synced(s) && Inverse(s) && t != 0 && Receive(s, t).ToPdcp?
    ensures TeidOf(s, Receive(s, t).ue, Receive(s, t).drb + 4) == t
  {
    ReceiveReachesHolder(s, t, Receive(s, t).ue, Receive(s, t).drb);
  }

  function Ebis(items: seq<TunnelToSetUp>): (r: seq<BearerId>)
    ensures |r| == |items| && forall i :: 0 <= i < |r| ==> r[i] == items[i].ebi
  {
    seq(|items|, i requires 0 <= i < |items| => items[i].ebi)
  }

  ghost predicate Distinct<T>(s: seq<T>) {
    forall i, j :: 0 <= i < j < |s| ==> s[i] != s[j]
  }

  // ---------------------------------------------------------------- one create

  lemma BearerAfterCreate(s: EnbState, ue: UeIndex, item: TunnelToSetUp, u: UeIndex, e: BearerId)
    requires HasFree(s.live)
    ensures BearerOf(CreateOne(s, ue, item), u, e)
            == if u == ue && e == item.ebi then Configured(BearerOf(s, u, e), item, NextTeid(s)) else BearerOf(s, u, e)
  {}

  /** A create maps a TEID that was neither live nor mapped, so it never takes the failure branch. */
  lemma CreateMapsFresh(s: EnbState, ue: UeIndex, item: TunnelToSetUp)
    requires Synced(s) && HasFree(s.live)
    ensures Synced(CreateOne(s, ue, item)) && NextTeid(s) !in s.owners && NextTeid(s) !in s.live
    ensures CreateOne(s, ue, item).owners == s.owners[NextTeid(s) := Owner(ue, item.ebi)]
  {}

  /** A create keeps the tables inverse exactly when the bearer it names has no TEID. */
  lemma CreateKeepsInverseIff(s: EnbState, ue: UeIndex, item: TunnelToSetUp)
    requires Synced(s) && Inverse(s) && HasFree(s.live)
    ensures Inverse(CreateOne(s, ue, item)) <==> TeidOf(s, ue, item.ebi) == 0
  {
    var s', t, was := CreateOne(s, ue, item), NextTeid(s), TeidOf(s, ue, item.ebi);
    CreateMapsFresh(s, ue, item);
    forall u: UeIndex, e: BearerId
      ensures TeidOf(s', u, e) == if u == ue && e == item.ebi then t else TeidOf(s, u, e)
    {
      BearerAfterCreate(s, ue, item, u, e);
    }
    if was != 0 {
      assert s'.owners[was] == Owner(ue, item.ebi) && TeidOf(s', ue, item.ebi) != was;
    }
  }

  /** Once a mapped TEID no longer is the TEID of its bearer, later creates do not repair it. */
  ghost predicate Stale(s: EnbState, t: Teid) {
    t != 0 && t in s.owners && TeidOf(s, s.owners[t].ue, s.owners[t].ebi) != t
  }

  lemma CreateKeepsStale(s: EnbState, ue: UeIndex, item: TunnelToSetUp, t: Teid)
    requires Synced(s) && HasFree(s.live) && Stale(s, t)
    ensures Stale(CreateOne(s, ue, item), t)
  {
    CreateMapsFresh(s, ue, item);
    BearerAfterCreate(s, ue, item, s.owners[t].ue, s.owners[t].ebi);
  }

  // ---------------------------------------------------------------- a whole create request

  function Elements<T>(s: seq<T>): set<T> {
    set x | x in s
  }

  /** What a create request leaves in the TEID table, said without its loop: it never fails, its
      answers are pairwise distinct TEIDs that were not in use, and it maps each to its bearer. */
  ghost predicate TeidEffect(s: EnbState, ue: UeIndex, items: seq<TunnelToSetUp>, r: Created) {
    && !r.failed && |r.teids| == |items| && Distinct(r.teids) && Elements(r.teids) !! s.live
    && r.state.live == s.live + Elements(r.teids)
    && (forall t :: t in s.owners ==> t in r.state.owners && r.state.owners[t] == s.owners[t])
    && (forall i :: 0 <= i < |items| ==>
          r.teids[i] in r.state.owners && r.state.owners[r.teids[i]] == Owner(ue, items[i].ebi))
  }

  /** What it leaves in the bearers: only the bearers it names change, and when it names each
      once, each ends with the TEID of its answer. */
  ghost predicate BearerEffect(s: EnbState, ue: UeIndex, items: seq<TunnelToSetUp>, r: Created) {
    && |r.teids| == |items|
    && (forall u: UeIndex, e: BearerId :: u != ue || e !in Ebis(items) ==> BearerOf(r.state, u, e) == BearerOf(s, u, e))
    && (Distinct(Ebis(items)) ==> forall i :: 0 <= i < |items| ==> TeidOf(r.state, ue, items[i].ebi) == r.teids[i])
    && (forall u: UeIndex :: u != ue ==> (u in r.state.ues <==> u in s.ues) && UeOf(r.state, u) == UeOf(s, u))
    && (items != [] ==> ue in r.state.ues)
    && UeOf(r.state, ue).numBearers == UeOf(s, ue).numBearers
  }

  /** The last pass of the create loop. */
  lemma LastCreate(s: EnbState, ue: UeIndex, items: seq<TunnelToSetUp>) returns (a: Created, t: Teid)
    requires items != [] && Room(s.live, |items|)
    requires Synced(CreateAll(s, ue, items[..|items| - 1]).state)
    ensures a == CreateAll(s, ue, items[..|items| - 1])
    ensures HasFree(a.state.live) && t == NextTeid(a.state) && t !in a.state.owners && t !in a.state.live
    ensures CreateAll(s, ue, items)
            == Created(CreateOne(a.state, ue, items[|items| - 1]), a.teids + [t], a.failed)
  {
    a := CreateAll(s, ue, items[..|items| - 1]);
    RoomMeansFree(a.state.live, 1);
    t := NextTeid(a.state);
    CreateMapsFresh(a.state, ue, items[|items| - 1]);
  }

  lemma ExtendTeidEffect(s: EnbState, ue: UeIndex, items: seq<TunnelToSetUp>, a: Created, t: Teid, r: Created)
    requires items != [] && TeidEffect(s, ue, items[..|items| - 1], a)
    requires t !in a.state.live && t !in a.state.owners && r.teids == a.teids + [t] && !r.failed
    requires r.state.live == a.state.live + {t}
    requires r.state.owners == a.state.owners[t := Owner(ue, items[|items| - 1].ebi)]
    ensures TeidEffect(s, ue, items, r)
  {
    assert Elements(r.teids) == Elements(a.teids) + {t};
    assert forall i :: 0 <= i < |items| - 1 ==> r.teids[i] == a.teids[i] && items[i] == items[..|items| - 1][i];
  }

  lemma {:induction false} CreateAllTeids(s: EnbState, ue: UeIndex, items: seq<TunnelToSetUp>)
    requires Synced(s) && Room(s.live, |items|)
    ensures Synced(CreateAll(s, ue, items).state)
    ensures TeidEffect(s, ue, items, CreateAll(s, ue, items))
  {
    if items != [] {
      var n := |items| - 1;
      CreateAllTeids(s, ue, items[..n]);
      var a, t := LastCreate(s, ue, items);
      ExtendTeidEffect(s, ue, items, a, t, CreateAll(s, ue, items));
    }
  }

  lemma ExtendBearerEffect(s: EnbState, ue: UeIndex, items: seq<TunnelToSetUp>, a: Created, t: Teid, r: Created)
    requires items != [] && BearerEffect(s, ue, items[..|items| - 1], a) && r.teids == a.teids + [t]
    requires HasFree(a.state.live) && t == NextTeid(a.state)
    requires r.state == CreateOne(a.state, ue, items[|items| - 1])
    ensures BearerEffect(s, ue, items, r)
  {
    var n := |items| - 1;
    var front, last := items[..n], items[n];
    assert Ebis(items) == Ebis(front) + [last.ebi];
    forall u: UeIndex, e: BearerId
      ensures BearerOf(r.state, u, e)
              == if u == ue && e == last.ebi then Configured(BearerOf(a.state, u, e), last, t) else BearerOf(a.state, u, e)
    {
      BearerAfterCreate(a.state, ue, last, u, e);
    }
    if Distinct(Ebis(items)) {
      assert Distinct(Ebis(front)) by { assert Ebis(front) == Ebis(items)[..n]; }
      forall i | 0 <= i < |items| ensures TeidOf(r.state, ue, items[i].ebi) == r.teids[i] {
        if i < n { assert Ebis(items)[i] != Ebis(items)[n] && front[i] == items[i]; }
      }
    }
  }

  lemma {:induction false} CreateAllBearers(s: EnbState, ue: UeIndex, items: seq<TunnelToSetUp>)
    requires Synced(s) && Room(s.live, |items|)
    ensures BearerEffect(s, ue, items, CreateAll(s, ue, items))
  {
    if items != [] {
      var n := |items| - 1;
      CreateAllBearers(s, ue, items[..n]);
      CreateAllTeids(s, ue, items[..n]);
      var a, t := LastCreate(s, ue, items);
      ExtendBearerEffect(s, ue, items, a, t, CreateAll(s, ue, items));
    }
  }

  /** A create request keeps the tables inverse if it names distinct bearers without a TEID. */
  lemma {:induction false} CreateAllKeepsInverse(s: EnbState, ue: UeIndex, items: seq<TunnelToSetUp>)
    requires Synced(s) && Inverse(s) && Room(s.live, |items|)
    requires Distinct(Ebis(items)) && forall i :: 0 <= i < |items| ==> TeidOf(s, ue, items[i].ebi) == 0
    ensures Inverse(CreateAll(s, ue, items).state)
  {
    if items != [] {
      var n := |items| - 1;
      var a := CreateAll(s, ue, items[..n]).state;
      assert Ebis(items[..n]) == Ebis(items)[..n];
      CreateAllKeepsInverse(s, ue, items[..n]);
      CreateAllTeids(s, ue, items[..n]);
      RoomMeansFree(a.live, 1);
      LaterBearerHasNone(s, ue, items);
      CreateKeepsInverseIff(a, ue, items[n]);
    }
  }

  lemma LaterBearerHasNone(s: EnbState, ue: UeIndex, items: seq<TunnelToSetUp>)
    requires Synced(s) && Room(s.live, |items|) && items != []
    requires Distinct(Ebis(items)) && TeidOf(s, ue, items[|items| - 1].ebi) == 0
    ensures TeidOf(CreateAll(s, ue, items[..|items| - 1]).state, ue, items[|items| - 1].ebi) == 0
  {
    var n := |items| - 1;
    CreateAllBearers(s, ue, items[..n]);
    assert Ebis(items[..n]) == Ebis(items)[..n];
    assert items[n].ebi !in Ebis(items[..n]);
  }

  ghost predicate CleanCreate(s: EnbState, ue: UeIndex, items: seq<TunnelToSetUp>) {
    Distinct(Ebis(items)) && forall i :: 0 <= i < |items| ==> TeidOf(s, ue, items[i].ebi) == 0
  }

  /** After a clean prefix, a request that is not clean names a bearer that now has a TEID. */
  lemma FirstUncleanBearer(s: EnbState, ue: UeIndex, items: seq<TunnelToSetUp>, a: Created)
    requires items != [] && !CleanCreate(s, ue, items)
    requires CleanCreate(s, ue, items[..|items| - 1]) && BearerEffect(s, ue, items[..|items| - 1], a)
    requires 0 !in a.teids
    ensures TeidOf(a.state, ue, items[|items| - 1].ebi) != 0
  {
    var n := |items| - 1;
    var front, last := items[..n], items[n];
    assert Ebis(items) == Ebis(front) + [last.ebi];
    if last.ebi in Ebis(front) {
      var i :| 0 <= i < n && Ebis(front)[i] == last.ebi;
      assert TeidOf(a.state, ue, front[i].ebi) == a.teids[i];
    } else {
      assert BearerOf(a.state, ue, last.ebi) == BearerOf(s, ue, last.ebi);
      assert forall i :: 0 <= i < n ==> items[i] == front[i];
    }
  }

  lemma {:induction false} UncleanCreateGoesStale(s: EnbState, ue: UeIndex, items: seq<TunnelToSetUp>) returns (t: Teid)
    requires Synced(s) && Inverse(s) && Room(s.live, |items|)
    requires 0 !in CreateAll(s, ue, items).teids && !CleanCreate(s, ue, items)
    ensures Stale(CreateAll(s, ue, items).state, t)
  {
    var front, last := items[..|items| - 1], items[|items| - 1];
    CreateAllTeids(s, ue, front);
    var a, fresh_t := LastCreate(s, ue, items);
    assert CreateAll(s, ue, items).teids == a.teids + [fresh_t];
    if !CleanCreate(s, ue, front) {
      t := UncleanCreateGoesStale(s, ue, front);
      CreateKeepsStale(a.state, ue, last, t);
    } else {
      CreateAllKeepsInverse(s, ue, front);
      CreateAllBearers(s, ue, front);
      FirstUncleanBearer(s, ue, items, a);
      t := TeidOf(a.state, ue, last.ebi);
      ReusedBearerGoesStale(a.state, ue, last);
    }
  }

  lemma ReusedBearerGoesStale(s: EnbState, ue: UeIndex, item: TunnelToSetUp)
    requires Synced(s) && Inverse(s) && HasFree(s.live) && TeidOf(s, ue, item.ebi) != 0
    ensures Stale(CreateOne(s, ue, item), TeidOf(s, ue, item.ebi))
  {
    CreateMapsFresh(s, ue, item);
    BearerAfterCreate(s, ue, item, ue, item.ebi);
  }

  /** The exact condition on a create request: barring a draw of TEID 0, the tables stay inverse
      iff the request names distinct bearers that have no TEID. */
  lemma CreateAllKeepsInverseIff(s: EnbState, ue: UeIndex, items: seq<TunnelToSetUp>)
    requires Synced(s) && Inverse(s) && Room(s.live, |items|)
    requires 0 !in CreateAll(s, ue, items).teids
    ensures Inverse(CreateAll(s, ue, items).state) <==> CleanCreate(s, ue, items)
  {
    if CleanCreate(s, ue, items) {
      CreateAllKeepsInverse(s, ue, items);
    } else {
      var t := UncleanCreateGoesStale(s, ue, items);
    }
  }

  // ---------------------------------------------------------------- deletes

  lemma BearerAfterDelete(s: EnbState, ue: UeIndex, d: BearerId, u: UeIndex, e: BearerId)
    requires ue in s.ues
    ensures BearerOf(DeleteOne(s, ue, d), u, e)
            == if u == ue && e == d then TornDown(BearerOf(s, u, e)) else BearerOf(s, u, e)
  {}

  lemma DeleteOneKeeps(s: EnbState, ue: UeIndex, d: BearerId)
    requires ue in s.ues
    ensures Synced(s) ==> Synced(DeleteOne(s, ue, d))
    ensures Inverse(s) ==> Inverse(DeleteOne(s, ue, d))
  {
    var s' := DeleteOne(s, ue, d);
    forall u: UeIndex, e: BearerId
      ensures TeidOf(s', u, e) == if u == ue && e == d then 0 else TeidOf(s, u, e)
    {
      BearerAfterDelete(s, ue, d, u, e);
    }
  }

  lemma {:induction false} DeleteEachKeeps(s: EnbState, ue: UeIndex, ebis: seq<BearerId>)
    requires ue in s.ues
    ensures Synced(s) ==> Synced(DeleteEach(s, ue, ebis).state)
    ensures Inverse(s) ==> Inverse(DeleteEach(s, ue, ebis).state)
  {
    if ebis != [] {
      var n := |ebis| - 1;
      DeleteEachKeeps(s, ue, ebis[..n]);
      DeleteOneKeeps(DeleteEach(s, ue, ebis[..n]).state, ue, ebis[n]);
    }
  }

  /** The TEIDs of a list of bearers. */
  function TeidsOf(s: EnbState, ue: UeIndex, ebis: seq<BearerId>): set<Teid> {
    set e | e in ebis :: TeidOf(s, ue, e)
  }

  /** What a delete request leaves behind, said without its loop. */
  ghost predicate DeleteEffect(s: EnbState, ue: UeIndex, ebis: seq<BearerId>, s': EnbState) {
    && s'.live == s.live - TeidsOf(s, ue, ebis)
    && s'.owners == s.owners - TeidsOf(s, ue, ebis)
    && s'.counter == s.counter && s'.ues.Keys == s.ues.Keys
    && (forall u: UeIndex, e: BearerId ::
          BearerOf(s', u, e) == if u == ue && e in ebis then TornDown(BearerOf(s, u, e)) else BearerOf(s, u, e))
    && (forall u: UeIndex :: u != ue ==> UeOf(s', u) == UeOf(s, u))
    && UeOf(s', ue).numBearers == UeOf(s, ue).numBearers - |ebis|
  }

  lemma ExtendDeleteEffect(s: EnbState, ue: UeIndex, ebis: seq<BearerId>, a: EnbState)
    requires ebis != [] && Distinct(ebis) && ue in s.ues
    requires DeleteEffect(s, ue, ebis[..|ebis| - 1], a)
    ensures DeleteEffect(s, ue, ebis, DeleteOne(a, ue, ebis[|ebis| - 1]))
  {
    var n := |ebis| - 1;
    var front, d := ebis[..n], ebis[n];
    var s' := DeleteOne(a, ue, d);
    assert ebis == front + [d] && d !in front;
    forall u: UeIndex, e: BearerId
      ensures BearerOf(s', u, e) == if u == ue && e in ebis then TornDown(BearerOf(s, u, e)) else BearerOf(s, u, e)
    {
      BearerAfterDelete(a, ue, d, u, e);
    }
    assert TeidOf(a, ue, d) == TeidOf(s, ue, d) by { assert BearerOf(a, ue, d) == BearerOf(s, ue, d); }
    assert TeidsOf(s, ue, ebis) == TeidsOf(s, ue, front) + {TeidOf(s, ue, d)};
  }

  lemma {:induction false} DeleteEachEffect(s: EnbState, ue: UeIndex, ebis: seq<BearerId>)
    requires ue in s.ues && Distinct(ebis)
    ensures DeleteEffect(s, ue, ebis, DeleteEach(s, ue, ebis).state)
  {
    if ebis == [] {
      assert TeidsOf(s, ue, ebis) == {};
    } else {
      var n := |ebis| - 1;
      DeleteEachEffect(s, ue, ebis[..n]);
      ExtendDeleteEffect(s, ue, ebis, DeleteEach(s, ue, ebis[..n]).state);
    }
  }

  /** A delete request asks the stack to destroy something it cannot: a TEID that is not live, or the
      same TEID a second time. */
  ghost predicate AsksTooMuch(s: EnbState, ue: UeIndex, ebis: seq<BearerId>) {
    || (exists i :: 0 <= i < |ebis| && TeidOf(s, ue, ebis[i]) !in s.live)
    || (exists i, j :: 0 <= i < j < |ebis| && TeidOf(s, ue, ebis[i]) == TeidOf(s, ue, ebis[j]))
  }

  lemma AsksOneMore(s: EnbState, ue: UeIndex, ebis: seq<BearerId>)
    requires ebis != []
    ensures var n := |ebis| - 1; var t := TeidOf(s, ue, ebis[n]);
      AsksTooMuch(s, ue, ebis) <==> AsksTooMuch(s, ue, ebis[..n]) || t !in s.live || t in TeidsOf(s, ue, ebis[..n])
  {
    var n := |ebis| - 1;
    var t := TeidOf(s, ue, ebis[n]);
    if t in TeidsOf(s, ue, ebis[..n]) {
      var e :| e in ebis[..n] && TeidOf(s, ue, e) == t;
      var i :| 0 <= i < n && ebis[..n][i] == e;
      assert TeidOf(s, ue, ebis[i]) == t;
    }
    if AsksTooMuch(s, ue, ebis[..n]) {
      if i :| 0 <= i < n && TeidOf(s, ue, ebis[..n][i]) !in s.live {
        assert TeidOf(s, ue, ebis[i]) !in s.live;
      } else {
        var i, j :| 0 <= i < j < n && TeidOf(s, ue, ebis[..n][i]) == TeidOf(s, ue, ebis[..n][j]);
        assert TeidOf(s, ue, ebis[i]) == TeidOf(s, ue, ebis[j]);
      }
    }
    forall i | 0 <= i < n ensures ebis[i] == ebis[..n][i] && TeidOf(s, ue, ebis[i]) in TeidsOf(s, ue, ebis[..n]) {
      assert ebis[..n][i] in ebis[..n];
    }
  }

  lemma {:induction false} DeleteEachFailsIff(s: EnbState, ue: UeIndex, ebis: seq<BearerId>)
    requires ue in s.ues && Distinct(ebis)
    ensures DeleteEach(s, ue, ebis).failed <==> AsksTooMuch(s, ue, ebis)
  {
    if ebis != [] {
      var n := |ebis| - 1;
      var a := DeleteEach(s, ue, ebis[..n]).state;
      DeleteEachFailsIff(s, ue, ebis[..n]);
      DeleteEachEffect(s, ue, ebis[..n]);
      assert BearerOf(a, ue, ebis[n]) == BearerOf(s, ue, ebis[n]);
      AsksOneMore(s, ue, ebis);
    }
  }

  /** When a delete request answers failure: for distinct bearers exactly when the UE is known and some
      bearer's TEID is not live, or two of them share one. While the tables are inverse and TEID 0 is
      not live the second cannot be, and the first means a bearer without a live TEID was named. */
  lemma DeleteFailsIff(s: EnbState, ue: UeIndex, ebis: seq<BearerId>)
    requires Distinct(ebis)
    ensures DeleteAll(s, ue, ebis).failed <==> ue in s.ues && AsksTooMuch(s, ue, ebis)
    ensures Inverse(s) && 0 !in s.live ==>
              (DeleteAll(s, ue, ebis).failed <==> ue in s.ues && exists i :: 0 <= i < |ebis| && TeidOf(s, ue, ebis[i]) !in s.live)
  {
    if ue in s.ues { DeleteEachFailsIff(s, ue, ebis); }
    if i, j :| 0 <= i < j < |ebis| && TeidOf(s, ue, ebis[i]) == TeidOf(s, ue, ebis[j]) {
      if Inverse(s) && TeidOf(s, ue, ebis[i]) != 0 { InverseIsInjective(s, ue, ebis[i], ue, ebis[j]); }
    }
  }

  /** Creating tunnels for distinct bearers without a TEID and then deleting them, in any order,
      gives back the TEID table and the live endpoints, leaves those bearers DOWN without TEIDs,
      and touches no other bearer and no other UE. */
  lemma CreateThenDeleteRestores(s: EnbState, ue: UeIndex, items: seq<TunnelToSetUp>, ebis: seq<BearerId>)
    requires Synced(s) && Room(s.live, |items|) && items != [] && CleanCreate(s, ue, items)
    requires Distinct(ebis) && Elements(ebis) == Elements(Ebis(items))
    ensures var s' := DeleteAll(CreateAll(s, ue, items).state, ue, ebis).state;
      && s'.owners == s.owners && s'.live == s.live
      && (forall e :: e in ebis ==> TeidOf(s', ue, e) == 0 && BearerOf(s', ue, e).teidSgw == 0 && BearerOf(s', ue, e).state == DOWN)
      && (forall u: UeIndex, e: BearerId :: u != ue || e !in ebis ==> BearerOf(s', u, e) == BearerOf(s, u, e))
      && (forall u: UeIndex :: u != ue ==> (u in s'.ues <==> u in s.ues) && UeOf(s', u) == UeOf(s, u))
  {
    var r := CreateAll(s, ue, items);
    CreateAllTeids(s, ue, items);
    CreateAllBearers(s, ue, items);
    DeleteEachEffect(r.state, ue, ebis);
    DeletedAreCreated(s, ue, items, r, ebis);
    RestoredTables(s, r.state, TeidsOf(r.state, ue, ebis));
    assert forall e :: e in ebis <==> e in Elements(ebis);
  }

  lemma DeletedAreCreated(s: EnbState, ue: UeIndex, items: seq<TunnelToSetUp>, r: Created, ebis: seq<BearerId>)
    requires BearerEffect(s, ue, items, r) && Distinct(Ebis(items)) && Elements(ebis) == Elements(Ebis(items))
    ensures TeidsOf(r.state, ue, ebis) == Elements(r.teids)
  {
    forall t ensures t in TeidsOf(r.state, ue, ebis) <==> t in Elements(r.teids) {
      if t in TeidsOf(r.state, ue, ebis) {
        var e :| e in ebis && t == TeidOf(r.state, ue, e);
        assert e in Elements(ebis);
        var i :| 0 <= i < |items| && Ebis(items)[i] == e;
        assert t == r.teids[i];
      }
      if t in Elements(r.teids) {
        var i :| 0 <= i < |items| && r.teids[i] == t;
        assert Ebis(items)[i] in Elements(ebis);
      }
    }
  }

  lemma RestoredTables(s: EnbState, a: EnbState, gone: set<Teid>)
    requires Synced(s) && Synced(a) && gone !! s.live && a.live == s.live + gone
    requires forall t :: t in s.owners ==> t in a.owners && a.owners[t] == s.owners[t]
    ensures a.live - gone == s.live && a.owners - gone == s.owners
  {}

  // ---------------------------------------------------------------- every run

  datatype EnbEvent =
    | CreateReq(ue: UeIndex, items: seq<TunnelToSetUp>)
    | DeleteReq(ue: UeIndex, ebis: seq<BearerId>)

  /** A create request is answered when its retry loops stop, that is when there is room. */
  ghost predicate EnbStep(s: EnbState, ev: EnbEvent, s': EnbState) {
    match ev
    case CreateReq(ue, items) => Room(s.live, |items|) && s' == CreateAll(s, ue, items).state
    case DeleteReq(ue, ebis) => s' == DeleteAll(s, ue, ebis).state
  }

  ghost predicate IsEnbRun(states: seq<EnbState>, events: seq<EnbEvent>) {
    && |states| == |events| + 1 && states[0] == EMPTY_ENB
    && forall i :: 0 <= i < |events| ==> EnbStep(states[i], events[i], states[i + 1])
  }

  /** In every run, whatever its requests, mapped TEIDs and live endpoints stay the same set, so no
      create request ever answers failure or repeats a TEID. */
  lemma {:induction false} EveryRunStaysSynced(states: seq<EnbState>, events: seq<EnbEvent>, i: nat)
    requires IsEnbRun(states, events) && i < |states|
    ensures Synced(states[i])
    ensures forall ue: UeIndex, items: seq<TunnelToSetUp> :: Room(states[i].live, |items|) ==>
              TeidEffect(states[i], ue, items, CreateAll(states[i], ue, items))
  {
    if i > 0 {
      EveryRunStaysSynced(states, events, i - 1);
      assert EnbStep(states[i - 1], events[i - 1], states[i]);
      match events[i - 1] {
        case CreateReq(ue, items) => CreateAllTeids(states[i - 1], ue, items);
        case DeleteReq(ue, ebis) => if ue in states[i - 1].ues { DeleteEachKeeps(states[i - 1], ue, ebis); }
      }
    }
    forall ue: UeIndex, items: seq<TunnelToSetUp> | Room(states[i].live, |items|)
      ensures TeidEffect(states[i], ue, items, CreateAll(states[i], ue, items))
    {
      CreateAllTeids(states[i], ue, items);
    }
  }

  /** In every run whose create requests name distinct bearers without a TEID, the two tables stay
      inverse. Deletes are unrestricted. */
  lemma {:induction false} EveryCleanRunStaysInverse(states: seq<EnbState>, events: seq<EnbEvent>, i: nat)
    requires IsEnbRun(states, events) && i < |states|
    requires forall j :: 0 <= j < |events| && events[j].CreateReq? ==>
               CleanCreate(states[j], events[j].ue, events[j].items)
    ensures Inverse(states[i])
  {
    if i > 0 {
      EveryCleanRunStaysInverse(states, events, i - 1);
      EveryRunStaysSynced(states, events, i - 1);
      match events[i - 1] {
        case CreateReq(ue, items) => CreateAllKeepsInverse(states[i - 1], ue, items);
        case DeleteReq(ue, ebis) => if ue in states[i - 1].ues { DeleteEachKeeps(states[i - 1], ue, ebis); }
      }
    }
  }

  /** So in every such run a T-PDU on a non-zero TEID reaches a radio bearer exactly when the bearer
      four above it holds the TEID, and is dropped exactly when no bearer holds it. */
  lemma EveryCleanRunDelivers(states: seq<EnbState>, events: seq<EnbEvent>, i: nat, t: Teid, u: UeIndex, drb: int)
    requires IsEnbRun(states, events) && i < |states| && t != 0
    requires forall j :: 0 <= j < |events| && events[j].CreateReq? ==>
               CleanCreate(states[j], events[j].ue, events[j].items)
    ensures Delivers(Receive(states[i], t), u, drb) <==> 3 <= drb + 4 < 32 && TeidOf(states[i], u, drb + 4) == t
    ensures Receive(states[i], t) == Dropped <==> forall v: UeIndex, d: BearerId :: TeidOf(states[i], v, d) != t
  {
    EveryRunStaysSynced(states, events, i);
    EveryCleanRunStaysInverse(states, events, i);
    ReceiveReachesHolder(states[i], t, u, drb);
  }
}
