/**
 The eNB side of the S1-U tunnels: two tables that have to agree, UE/bearer -> TEID for the
 uplink and TEID -> UE/bearer for the downlink.
 */
module EnbTunnels {
  import opened Common
  import opened TeidAllocation

  const BEARER_OFFSET: int := 3
  const MAX_DRB_IDENTITY: int := 32
  const MAX_BEARERS: int := MAX_DRB_IDENTITY - BEARER_OFFSET

  type UeIndex = uint8

  /** The identifiers that index the bearer array inside its bounds. */
  type BearerId = e: int | BEARER_OFFSET <= e < MAX_DRB_IDENTITY witness 3

  type DrbId = d: int | -1 <= d < 28 witness 0

  datatype BearerState = DOWN | IN_CONFIG | UP | DL_HANDOVER | UL_HANDOVER

  datatype Bearer = Bearer(teidEnb: Teid, teidSgw: Teid, sgwIp: uint32, sgwIp6: nat, state: BearerState)

  const NO_BEARER := Bearer(0, 0, 0, 0, DOWN)

  function EmptyTable(): (t: seq<Bearer>)
    ensures |t| == MAX_BEARERS && forall i :: 0 <= i < |t| ==> t[i] == NO_BEARER
  {
    seq(MAX_BEARERS, _ => NO_BEARER)
  }

  type BearerTable = s: seq<Bearer> | |s| == MAX_BEARERS witness EmptyTable()

  datatype UeView = UeView(numBearers: int, bearers: BearerTable)

  const NEW_UE := UeView(0, EmptyTable())

  datatype Owner = Owner(ue: UeIndex, ebi: BearerId)

  /** The three lengths of transport layer address the handler goes on with: 4, 16 and 20 octets. */
  datatype SgwAddr = V4(ip: uint32) | V6(ip6: nat) | V4V6(ip: uint32, ip6: nat)

  datatype TunnelToSetUp = TunnelToSetUp(ebi: BearerId, sgwTeid: Teid, sgwAddr: SgwAddr)

  datatype EnbState = EnbState(counter: Teid, live: set<Teid>, ues: map<UeIndex, UeView>, owners: map<Teid, Owner>)

  const EMPTY_ENB := EnbState(0, {}, map[], map[])

  // ---------------------------------------------------------------- specification

  function UeOf(s: EnbState, ue: UeIndex): UeView {
    if ue in s.ues then s.ues[ue] else NEW_UE
  }

  function BearerOf(s: EnbState, ue: UeIndex, e: BearerId): Bearer {
    UeOf(s, ue).bearers[e - BEARER_OFFSET]
  }

  function TeidOf(s: EnbState, ue: UeIndex, e: BearerId): Teid {
    BearerOf(s, ue, e).teidEnb
  }

  function WithBearer(u: UeView, e: BearerId, b: Bearer): UeView {
    u.(bearers := u.bearers[e - BEARER_OFFSET := b])
  }

  /** A bearer after a create: an address family the request does not carry keeps its old value. */
  function Configured(b: Bearer, item: TunnelToSetUp, teid: Teid): Bearer {
    Bearer(teid, item.sgwTeid,
           if item.sgwAddr.V6? then b.sgwIp else item.sgwAddr.ip,
           if item.sgwAddr.V4? then b.sgwIp6 else item.sgwAddr.ip6,
           IN_CONFIG)
  }

  function ConfiguredUe(u: UeView, item: TunnelToSetUp, teid: Teid): UeView {
    WithBearer(u, item.ebi, Configured(u.bearers[item.ebi - BEARER_OFFSET], item, teid))
  }

  /** A bearer after a delete; the IPv6 address is left behind. */
  function TornDown(b: Bearer): Bearer {
    b.(state := DOWN, teidEnb := 0, teidSgw := 0, sgwIp := 0)
  }

  ghost function NextTeid(s: EnbState): Teid
    requires HasFree(s.live)
  {
    Nth(s.counter, FirstFree(s.counter, s.live))
  }

  /** The answer to a create request: one TEID per tunnel, 0 where the TEID was already mapped. */
  datatype Created = Created(state: EnbState, teids: seq<Teid>, failed: bool)

  ghost function CreateOne(s: EnbState, ue: UeIndex, item: TunnelToSetUp): EnbState
    requires HasFree(s.live)
  {
    var t := NextTeid(s);
    EnbState(t, s.live + {t},
             s.ues[ue := ConfiguredUe(UeOf(s, ue), item, t)],
             if t in s.owners then s.owners else s.owners[t := Owner(ue, item.ebi)])
  }

  ghost function CreateAll(s: EnbState, ue: UeIndex, items: seq<TunnelToSetUp>): (r: Created)
    requires Room(s.live, |items|)
    ensures |r.teids| == |items|
    ensures |r.state.live| == |s.live| + |items|
  {
    if items == [] then Created(s, [], false)
    else
      var n := |items| - 1;
      var before := CreateAll(s, ue, items[..n]);
      RoomMeansFree(before.state.live, 1);
      var t := NextTeid(before.state);
      var clash := t in before.state.owners;
      Created(CreateOne(before.state, ue, items[n]), before.teids + [if clash then 0 else t], before.failed || clash)
  }

  /** One more tunnel of the same request. */
  lemma CreateAllNext(s: EnbState, ue: UeIndex, items: seq<TunnelToSetUp>, i: nat)
    requires Room(s.live, |items|) && i < |items|
    ensures var before := CreateAll(s, ue, items[..i]);
      && HasFree(before.state.live)
      && var t := NextTeid(before.state);
      && var clash := t in before.state.owners;
      && CreateAll(s, ue, items[..i + 1])
         == Created(CreateOne(before.state, ue, items[i]), before.teids + [if clash then 0 else t], before.failed || clash)
  {
    assert items[..i + 1][..i] == items[..i];
    RoomMeansFree(CreateAll(s, ue, items[..i]).state.live, 1);
  }

  function DeleteOne(s: EnbState, ue: UeIndex, e: BearerId): EnbState
    requires ue in s.ues
  {
    var t := TeidOf(s, ue, e);
    var u := WithBearer(s.ues[ue], e, TornDown(BearerOf(s, ue, e)));
    s.(live := s.live - {t}, ues := s.ues[ue := u.(numBearers := u.numBearers - 1)], owners := s.owners - {t})
  }

  datatype Deleted = Deleted(state: EnbState, failed: bool)

  function DeleteEach(s: EnbState, ue: UeIndex, ebis: seq<BearerId>): (r: Deleted)
    requires ue in s.ues
    ensures r.state.ues.Keys == s.ues.Keys
  {
    if ebis == [] then Deleted(s, false)
    else
      var n := |ebis| - 1;
      var before := DeleteEach(s, ue, ebis[..n]);
      Deleted(DeleteOne(before.state, ue, ebis[n]),
              before.failed || TeidOf(before.state, ue, ebis[n]) !in before.state.live)
  }

  /** A delete for a UE that is not in the table answers success and does nothing. */
  function DeleteAll(s: EnbState, ue: UeIndex, ebis: seq<BearerId>): Deleted {
    if ue in s.ues then DeleteEach(s, ue, ebis) else Deleted(s, false)
  }

  /** What a T-PDU received on `teid` turns into: the stack drops it unless the endpoint is live,
      the handler unless the TEID is mapped. */
  datatype Downlink = Dropped | ToPdcp(ue: UeIndex, drb: DrbId)

  /** The radio bearer of an EPS bearer; bearer 3, which EPS never assigns, becomes -1. */
  function DrbOf(e: BearerId): DrbId {
    e - 4
  }

  function Receive(s: EnbState, teid: Teid): Downlink {
    if teid in s.live && teid in s.owners then ToPdcp(s.owners[teid].ue, DrbOf(s.owners[teid].ebi)) else Dropped
  }

  /** What an uplink SDU of a radio bearer turns into. The handler's range check admits
      MAX_DRB_IDENTITY itself, one past the end of the array. */
  datatype Uplink = NoUe | Ignored | PastTheArray | Sent(teidSgw: Teid, sgwIp: uint32)

  function Send(s: EnbState, ue: UeIndex, rabId: uint8): Uplink {
    if ue !in s.ues then NoUe
    else if BEARER_OFFSET <= rabId < MAX_DRB_IDENTITY then
      Sent(BearerOf(s, ue, rabId).teidSgw, BearerOf(s, ue, rabId).sgwIp)
    else if rabId == MAX_DRB_IDENTITY then PastTheArray
    else Ignored
  }

  lemma Overwrite<K, V>(m: map<K, V>, k: K, a: V, b: V)
    ensures m[k := a][k := b] == m[k := b]
  {}

  // ---------------------------------------------------------------- the handlers

  class UeData {
    var numBearers: int
    const bearers: array<Bearer>

    constructor ()
      ensures bearers.Length == MAX_BEARERS && View() == NEW_UE && fresh(bearers)
    {
      numBearers := 0;
      bearers := new Bearer[MAX_BEARERS](_ => NO_BEARER);
      new;
      assert bearers[..] == NEW_UE.bearers;
    }

    function View(): UeView
      requires bearers.Length == MAX_BEARERS
      reads this, bearers
    {
      UeView(numBearers, bearers[..])
    }
  }

  class EnbGtpu {
    const source: TeidSource
    var ueMapping: map<UeIndex, UeData>
    var teidMapping: map<Teid, Owner>

    /** What the records hold, and which UE each record and each array belongs to. */
    ghost var ues: map<UeIndex, UeView>
    ghost var home: map<object, UeIndex>

    ghost function Repr(): set<object>
      reads this
    {
      {this, source} + home.Keys
    }

    /** No two UEs share a record or an array, and the count of bearers, which only deletes
        change, is never positive. */
    ghost predicate Valid()
      reads this, home.Keys
    {
      && ues.Keys == ueMapping.Keys && this !in home && source !in home
      && forall u {:trigger ueMapping[u]} | u in ueMapping ::
           && var d := ueMapping[u];
           && d in home && home[d] == u && d.bearers in home && home[d.bearers] == u
           && d.bearers.Length == MAX_BEARERS && d.numBearers <= 0
           && ues[u] == UeView(d.numBearers, d.bearers[..])
    }

    ghost function State(): EnbState
      reads this, source
    {
      EnbState(source.counter, source.live, ues, teidMapping)
    }

    constructor ()
      ensures Valid() && fresh(Repr()) && State() == EMPTY_ENB
    {
      source := new TeidSource();
      ueMapping, teidMapping := map[], map[];
      ues, home := map[], map[];
    }

    /** The lookup of a UE in ue_mapping, with its insertion on a first tunnel. */
    method FindOrInsertUe(ue: UeIndex)
      requires Valid()
      modifies this`ueMapping, this`ues, this`home
      ensures Valid() && fresh(home.Keys - old(home.Keys))
      ensures ue in ueMapping && (fresh(ueMapping[ue].bearers) || ueMapping[ue].bearers in old(home))
      ensures ues == old(ues)[ue := UeOf(old(State()), ue)]
    {
      if ue !in ueMapping {
        var u := new UeData();
        assert u !in home && u.bearers !in home;
        ueMapping := ueMapping[ue := u];
        ues := ues[ue := NEW_UE];
        home := home[u := ue][u.bearers := ue];
      }
    }

    method WriteBearer(ue: UeIndex, e: BearerId, b: Bearer)
      requires Valid() && ue in ueMapping
      modifies ueMapping[ue].bearers, this`ues
      ensures Valid()
      ensures ues == old(ues)[ue := WithBearer(old(ues)[ue], e, b)]
    {
      ueMapping[ue].bearers[e - BEARER_OFFSET] := b;
      ues := ues[ue := WithBearer(ues[ue], e, b)];
    }

    method DropOne(ue: UeIndex)
      requires Valid() && ue in ueMapping
      modifies ueMapping[ue], this`ues
      ensures Valid()
      ensures ues == old(ues)[ue := old(ues)[ue].(numBearers := old(ues)[ue].numBearers - 1)]
      ensures ueMapping[ue].numBearers < 0
    {
      var u := ueMapping[ue];
      u.numBearers := u.numBearers - 1;
      ues := ues[ue := ues[ue].(numBearers := u.numBearers)];
    }

    method FillBearer(ue: UeIndex, item: TunnelToSetUp, teid: Teid)
      requires Valid() && ue in ueMapping
      modifies ueMapping[ue].bearers, this`ues
      ensures Valid()
      ensures ues == old(ues)[ue := ConfiguredUe(old(ues)[ue], item, teid)]
    {
      var b := ueMapping[ue].bearers[item.ebi - BEARER_OFFSET];
      WriteBearer(ue, item.ebi, Configured(b, item, teid));
    }

    /** The uplink half of a create: find or insert the UE, then fill its bearer. */
    method ConfigureBearer(ue: UeIndex, item: TunnelToSetUp, teid: Teid)
      requires Valid()
      modifies this`ueMapping, this`ues, this`home, home.Keys
      ensures Valid() && fresh(home.Keys - old(home.Keys))
      ensures ues == old(ues)[ue := ConfiguredUe(UeOf(old(State()), ue), item, teid)]
    {
      ghost var v, was := UeOf(State(), ue), ues;
      FindOrInsertUe(ue);
      FillBearer(ue, item, teid);
      Overwrite(was, ue, v, ConfiguredUe(v, item, teid));
    }

    /** One pass of the loop in gtpv1u_create_s1u_tunnel. */
    method SetUpTunnel(ue: UeIndex, item: TunnelToSetUp) returns (answer: Teid, clash: bool)
      requires Valid() && HasFree(source.live)
      modifies Repr()
      ensures Valid() && fresh(Repr() - old(Repr()))
      ensures State() == CreateOne(old(State()), ue, item)
      ensures clash == (NextTeid(old(State())) in old(teidMapping))
      ensures answer == if clash then 0 else NextTeid(old(State()))
    {
      var teid := source.Draw();
      ConfigureBearer(ue, item, teid);
      clash := teid in teidMapping;
      if clash {
        answer := 0;
      } else {
        teidMapping := teidMapping[teid := Owner(ue, item.ebi)];
        answer := teid;
      }
    }

    method CreateTunnels(ue: UeIndex, items: seq<TunnelToSetUp>) returns (teids: seq<Teid>, failed: bool)
      requires Valid() && Room(source.live, |items|)
      modifies Repr()
      ensures Valid() && fresh(Repr() - old(Repr()))
      ensures Created(State(), teids, failed) == CreateAll(old(State()), ue, items)
    {
      teids, failed := [], false;
      ghost var s := State();
      for i := 0 to |items|
        invariant Valid() && fresh(Repr() - old(Repr()))
        invariant Created(State(), teids, failed) == CreateAll(s, ue, items[..i])
      {
        CreateAllNext(s, ue, items, i);
        var teid, clash := SetUpTunnel(ue, items[i]);
        teids, failed := teids + [teid], failed || clash;
      }
      assert items[..|items|] == items;
    }

    /** A UE without bearers leaves the table. */
    method DropIfEmpty(ue: UeIndex)
      requires Valid() && ue in ueMapping
      modifies this`ueMapping, this`ues
      ensures Valid()
      ensures if old(ues)[ue].numBearers == 0 then ueMapping == old(ueMapping) - {ue} && ues == old(ues) - {ue}
              else ueMapping == old(ueMapping) && ues == old(ues)
    {
      if ueMapping[ue].numBearers == 0 {
        ueMapping := ueMapping - {ue};
        ues := ues - {ue};
      }
    }

    /** The uplink half of a delete. Nothing ever raises the count of bearers above 0, so no delete
        brings it to 0 and the UE stays in the table. */
    method ReleaseBearer(ue: UeIndex, e: BearerId)
      requires Valid() && ue in ueMapping
      modifies this`ueMapping, this`ues, home.Keys
      ensures Valid() && ueMapping == old(ueMapping)
      ensures ues == DeleteOne(old(State()), ue, e).ues
    {
      ghost var was := ues;
      WriteBearer(ue, e, TornDown(ueMapping[ue].bearers[e - BEARER_OFFSET]));
      DropOne(ue);
      DropIfEmpty(ue);
      ghost var u := WithBearer(was[ue], e, TornDown(was[ue].bearers[e - BEARER_OFFSET]));
      Overwrite(was, ue, u, u.(numBearers := u.numBearers - 1));
    }

    /** One pass of the loop in gtpv1u_delete_s1u_tunnel. */
    method TearDownTunnel(ue: UeIndex, e: BearerId) returns (failed: bool)
      requires Valid() && ue in ueMapping
      modifies Repr()
      ensures Valid() && ueMapping == old(ueMapping) && home == old(home)
      ensures State() == DeleteOne(old(State()), ue, e)
      ensures failed == (TeidOf(old(State()), ue, e) !in old(source.live))
    {
      var teid := ueMapping[ue].bearers[e - BEARER_OFFSET].teidEnb;
      var ok := source.DestroyEndpoint(teid);
      failed := !ok;
      ReleaseBearer(ue, e);
      teidMapping := teidMapping - {teid};
    }

    method DeleteTunnels(ue: UeIndex, ebis: seq<BearerId>) returns (failed: bool)
      requires Valid()
      modifies Repr()
      ensures Valid() && ueMapping == old(ueMapping) && home == old(home)
      ensures Deleted(State(), failed) == DeleteAll(old(State()), ue, ebis)
    {
      failed := false;
      if ue !in ueMapping { return; }
      ghost var s := State();
      for i := 0 to |ebis|
        invariant Valid() && ueMapping == old(ueMapping) && home == old(home)
        invariant Deleted(State(), failed) == DeleteEach(s, ue, ebis[..i])
      {
        assert ebis[..i + 1][..i] == ebis[..i];
        var bad := TearDownTunnel(ue, ebis[i]);
        failed := failed || bad;
      }
      assert ebis[..|ebis|] == ebis;
    }

    /** The receive callback, behind the stack's own endpoint check. */
    method ReceiveTpdu(teid: Teid) returns (d: Downlink)
      requires Valid()
      ensures d == Receive(State(), teid)
    {
      if teid in source.live && teid in teidMapping {
        d := ToPdcp(teidMapping[teid].ue, teidMapping[teid].ebi - 4);
      } else {
        d := Dropped;
      }
    }

    method HandleTunnelDataReq(ue: UeIndex, rabId: uint8) returns (r: Uplink)
      requires Valid()
      ensures r == Send(State(), ue, rabId)
    {
      if ue !in ueMapping {
        r := NoUe;
      } else if rabId >= BEARER_OFFSET && rabId <= MAX_DRB_IDENTITY {
        var i, u := rabId - BEARER_OFFSET, ueMapping[ue];
        r := if i < u.bearers.Length then Sent(u.bearers[i].teidSgw, u.bearers[i].sgwIp) else PastTheArray;
      } else {
        r := Ignored;
      }
    }
  }
}
