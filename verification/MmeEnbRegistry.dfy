/**
 The MME's list of associated eNBs: associations come and go, and S1 Setup requests turn them
 into READY eNBs. New entries start with eNB id 0.
 */
module MmeEnbRegistry {
  import opened Common
  import opened Counting

  datatype S1State = RESETING | READY

  datatype Enb = Enb(assocId: uint32, enbId: uint32, state: S1State, inStreams: uint16, outStreams: uint16, nextStream: uint16)

  /** A zero-filled entry. */
  const BLANK_ENB := Enb(0, 0, RESETING, 0, 0, 0)

  datatype Registry = Registry(enbs: seq<Enb>, nbAssociated: uint32)

  datatype FailureCause = ProtocolUnspecified | ControlProcessingOverload | UnknownPlmn | MiscUnspecified

  /** What the peer of a setup request gets: a response, a failure, or nothing. */
  datatype Answer = Response | Failure(cause: FailureCause) | Nothing

  /** A setup request with the configuration it meets: whether the HSS is connected, the limit on
      eNBs, whether the tracking areas match, and whether the response can be encoded. */
  datatype SetupRequest = SetupRequest(
    assocId: uint32, stream: nat, enbId: uint32, hssAssociated: bool, maxEnbs: uint16, taOk: bool, encodes: bool)

  datatype Event =
    | NewAssociation(assocId: uint32, inStreams: uint16, outStreams: uint16)
    | Setup(req: SetupRequest)
    | Disconnection(lostAssocId: uint32)

  // ---------------------------------------------------------------- searches

  /** The position of the first entry that satisfies `p`. */
  function First(s: seq<Enb>, p: Enb -> bool): (i: Option<nat>)
    ensures i.Some? ==> i.value < |s| && p(s[i.value]) && forall j :: 0 <= j < i.value ==> !p(s[j])
    ensures i.None? ==> forall j :: 0 <= j < |s| ==> !p(s[j])
  {
    if s == [] then None
    else if p(s[0]) then Some(0)
    else match First(s[1..], p)
      case None => None
      case Some(i) => Some(i + 1)
  }

  function ById(enbId: uint32): Enb -> bool {
    (e: Enb) => e.enbId == enbId
  }

  function ByAssoc(assocId: uint32): Enb -> bool {
    (e: Enb) => e.assocId == assocId
  }

  function Without(s: seq<Enb>, i: nat): seq<Enb>
    requires i < |s|
  {
    s[..i] + s[i + 1..]
  }

  // ---------------------------------------------------------------- the steps

  function Associate(r: Registry, assocId: uint32, ins: uint16, outs: uint16): Registry {
    var entry := BLANK_ENB.(assocId := assocId, inStreams := ins, outStreams := outs, nextStream := 1);
    match First(r.enbs, ByAssoc(assocId))
    case None => Registry(r.enbs + [entry], Inc32(r.nbAssociated))
    case Some(i) => r.(enbs := r.enbs[i := r.enbs[i].(inStreams := ins, outStreams := outs, nextStream := 1)])
  }

  function Remove(r: Registry, i: nat): Registry
    requires i < |r.enbs|
  {
    Registry(Without(r.enbs, i), if r.nbAssociated == 0 then TWO_32 - 1 else r.nbAssociated - 1)
  }

  /** s1ap_generate_s1_setup_response: an entry whose response cannot be encoded is removed. */
  function Respond(r: Registry, i: nat, encodes: bool): Registry
    requires i < |r.enbs|
  {
    if encodes then r.(enbs := r.enbs[i := r.enbs[i].(state := READY)]) else Remove(r, i)
  }

  datatype Reply = Reply(r: Registry, answer: Answer)

  function Answered(encodes: bool): Answer {
    if encodes then Response else Nothing
  }

  function HandleSetup(r: Registry, q: SetupRequest): Reply {
    if !q.hssAssociated then Reply(r, Failure(MiscUnspecified))
    else if q.stream != 0 then Reply(r, Failure(ProtocolUnspecified))
    else if r.nbAssociated == q.maxEnbs then Reply(r, Failure(ControlProcessingOverload))
    else if !q.taOk then Reply(r, Failure(UnknownPlmn))
    else
      match First(r.enbs, ById(q.enbId))
      case None =>
        (match First(r.enbs, ByAssoc(q.assocId))
         case None => Reply(r, Nothing)
         case Some(i) =>
           var e := r.enbs[i].(state := RESETING, enbId := q.enbId);
           Reply(Respond(r.(enbs := r.enbs[i := e]), i, q.encodes), Answered(q.encodes)))
      case Some(i) =>
        var reset := r.(enbs := r.enbs[i := r.enbs[i].(state := RESETING)]);
        if r.enbs[i].assocId != q.assocId then Reply(reset, Nothing)
        else Reply(Respond(reset, i, q.encodes), Answered(q.encodes))
  }

  function Disconnect(r: Registry, assocId: uint32): Registry {
    match First(r.enbs, ByAssoc(assocId))
    case None => r
    case Some(i) => Remove(r, i)
  }

  function Next(r: Registry, ev: Event): Registry {
    match ev
    case NewAssociation(a, ins, outs) => Associate(r, a, ins, outs)
    case Setup(q) => HandleSetup(r, q).r
    case Disconnection(a) => Disconnect(r, a)
  }

  // ---------------------------------------------------------------- the handlers

  class EnbList {
    var enbs: seq<Enb>
    var nbAssociated: uint32

    constructor ()
      ensures State() == Registry([], 0)
    {
      enbs, nbAssociated := [], 0;
    }

    function State(): Registry
      reads this
    {
      Registry(enbs, nbAssociated)
    }

    /** s1ap_is_eNB_id_in_list: NULL when the walk falls off the end. */
    method FindId(enbId: uint32) returns (i: Option<nat>)
      ensures i == First(enbs, ById(enbId))
    {
      for j := 0 to |enbs|
        invariant forall n :: 0 <= n < j ==> enbs[n].enbId != enbId
      {
        if enbs[j].enbId == enbId { return Some(j); }
      }
      return None;
    }

    method FindAssoc(assocId: uint32) returns (i: Option<nat>)
      ensures i == First(enbs, ByAssoc(assocId))
    {
      for j := 0 to |enbs|
        invariant forall n :: 0 <= n < j ==> enbs[n].assocId != assocId
      {
        if enbs[j].assocId == assocId { return Some(j); }
      }
      return None;
    }

    /** s1ap_new_eNB. */
    method Append() returns (i: nat)
      modifies this
      ensures i == |old(enbs)| && enbs == old(enbs) + [BLANK_ENB] && nbAssociated == Inc32(old(nbAssociated))
    {
      nbAssociated := Inc32(nbAssociated);
      i := |enbs|;
      enbs := enbs + [BLANK_ENB];
    }

    /** s1ap_remove_eNB. */
    method RemoveAt(i: nat)
      requires i < |enbs|
      modifies this
      ensures State() == Remove(old(State()), i)
    {
      enbs := enbs[..i] + enbs[i + 1..];
      nbAssociated := if nbAssociated == 0 then TWO_32 - 1 else nbAssociated - 1;
    }

    method HandleNewAssociation(assocId: uint32, ins: uint16, outs: uint16)
      modifies this
      ensures State() == Next(old(State()), NewAssociation(assocId, ins, outs))
    {
      var i;
      var found := FindAssoc(assocId);
      if found.None? { i := Append(); } else { i := found.value; }
      enbs := enbs[i := enbs[i].(assocId := assocId)];
      enbs := enbs[i := enbs[i].(inStreams := ins, outStreams := outs)];
      enbs := enbs[i := enbs[i].(nextStream := 1)];
    }

    method GenerateResponse(i: nat, encodes: bool) returns (answer: Answer)
      requires i < |enbs|
      modifies this
      ensures State() == Respond(old(State()), i, encodes) && answer == Answered(encodes)
    {
      if encodes {
        enbs := enbs[i := enbs[i].(state := READY)];
      } else {
        RemoveAt(i);
      }
      answer := Answered(encodes);
    }

    method HandleSetupRequest(q: SetupRequest) returns (answer: Answer)
      modifies this
      ensures Reply(State(), answer) == HandleSetup(old(State()), q)
    {
      if !q.hssAssociated { return Failure(MiscUnspecified); }
      if q.stream != 0 { return Failure(ProtocolUnspecified); }
      if nbAssociated == q.maxEnbs { return Failure(ControlProcessingOverload); }
      if !q.taOk { return Failure(UnknownPlmn); }
      var found := FindId(q.enbId);
      var i;
      if found.None? {
        found := FindAssoc(q.assocId);
        if found.None? { return Nothing; }
        i := found.value;
        enbs := enbs[i := enbs[i].(state := RESETING)];
        enbs := enbs[i := enbs[i].(enbId := q.enbId)];
      } else {
        i := found.value;
        enbs := enbs[i := enbs[i].(state := RESETING)];
        if enbs[i].assocId != q.assocId { return Nothing; }
      }
      answer := GenerateResponse(i, q.encodes);
    }

    method HandleDisconnection(assocId: uint32)
      modifies this
      ensures State() == Next(old(State()), Disconnection(assocId))
    {
      var i := FindAssoc(assocId);
      if i.Some? { RemoveAt(i.value); }
    }
  }

  // ---------------------------------------------------------------- the invariant

  ghost predicate AssocsDiffer(s: seq<Enb>) {
    forall i, j :: 0 <= i < j < |s| ==> s[i].assocId != s[j].assocId
  }

  /** Every READY eNB is the first entry that bears its eNB id. */
  ghost predicate ReadyAreFirst(s: seq<Enb>) {
    forall i, j :: 0 <= i < j < |s| && s[j].state == READY ==> s[i].enbId != s[j].enbId
  }

  ghost predicate Inv(r: Registry) {
    AssocsDiffer(r.enbs) && ReadyAreFirst(r.enbs) && r.nbAssociated == |r.enbs| % TWO_32
  }

  /** Distinct 32-bit association ids bound the list. */
  lemma ListIsBounded(s: seq<Enb>)
    requires AssocsDiffer(s)
    ensures |s| <= TWO_32
  {
    AssocSetSize(s);
    SubsetSize(Assocs(s), Below(TWO_32));
  }

  function Assocs(s: seq<Enb>): set<uint32> {
    set i | 0 <= i < |s| :: s[i].assocId
  }

  lemma {:induction false} AssocSetSize(s: seq<Enb>)
    requires AssocsDiffer(s)
    ensures |Assocs(s)| == |s|
  {
    if s != [] {
      var n := |s| - 1;
      AssocSetSize(s[..n]);
      assert Assocs(s) == Assocs(s[..n]) + {s[n].assocId} by {
        assert forall i :: 0 <= i < n ==> s[..n][i] == s[i];
      }
      assert s[n].assocId !in Assocs(s[..n]);
    }
  }

  lemma AssociateKeepsInv(r: Registry, assocId: uint32, ins: uint16, outs: uint16)
    requires Inv(r)
    ensures Inv(Associate(r, assocId, ins, outs))
  {}

  lemma RemoveKeepsInv(r: Registry, i: nat)
    requires Inv(r) && i < |r.enbs|
    ensures Inv(Remove(r, i))
  {
    ListIsBounded(r.enbs);
  }

  /** Making entry `i` READY is safe when no other entry bears its id. */
  lemma ReadyKeepsInv(r: Registry, i: nat, e: Enb)
    requires Inv(r) && i < |r.enbs| && e.assocId == r.enbs[i].assocId
    requires e.state == READY ==> forall j :: 0 <= j < |r.enbs| && j != i ==> r.enbs[j].enbId != e.enbId || (i < j && r.enbs[j].state != READY)
    requires e.state == RESETING ==> forall j :: i < j < |r.enbs| && r.enbs[j].state == READY ==> r.enbs[j].enbId != e.enbId
    ensures Inv(r.(enbs := r.enbs[i := e]))
  {}

  lemma SetupKeepsInv(r: Registry, q: SetupRequest)
    requires Inv(r)
    ensures Inv(HandleSetup(r, q).r)
  {
    if q.hssAssociated && q.stream == 0 && r.nbAssociated != q.maxEnbs && q.taOk {
      var byId, byAssoc := First(r.enbs, ById(q.enbId)), First(r.enbs, ByAssoc(q.assocId));
      if byId.None? && byAssoc.Some? {
        var i := byAssoc.value;
        ReadyKeepsInv(r, i, r.enbs[i].(state := RESETING, enbId := q.enbId));
        ReadyKeepsInv(r, i, r.enbs[i].(state := READY, enbId := q.enbId));
        if !q.encodes { RemoveKeepsInv(r.(enbs := r.enbs[i := r.enbs[i].(state := RESETING, enbId := q.enbId)]), i); }
      } else if byId.Some? {
        var i := byId.value;
        ReadyKeepsInv(r, i, r.enbs[i].(state := RESETING));
        ReadyKeepsInv(r, i, r.enbs[i].(state := READY));
        if !q.encodes && r.enbs[i].assocId == q.assocId { RemoveKeepsInv(r.(enbs := r.enbs[i := r.enbs[i].(state := RESETING)]), i); }
      }
    }
  }

  lemma NextKeepsInv(r: Registry, ev: Event)
    requires Inv(r)
    ensures Inv(Next(r, ev))
  {
    match ev
    case NewAssociation(a, ins, outs) => AssociateKeepsInv(r, a, ins, outs);
    case Setup(q) => SetupKeepsInv(r, q);
    case Disconnection(a) =>
      var i := First(r.enbs, ByAssoc(a));
      if i.Some? { RemoveKeepsInv(r, i.value); }
  }

  // ---------------------------------------------------------------- every run

  function After(events: seq<Event>): Registry {
    if events == [] then Registry([], 0) else Next(After(events[..|events| - 1]), events[|events| - 1])
  }

  lemma {:induction false} EveryRunKeepsInv(events: seq<Event>)
    ensures Inv(After(events))
  {
    if events != [] {
      EveryRunKeepsInv(events[..|events| - 1]);
      NextKeepsInv(After(events[..|events| - 1]), events[|events| - 1]);
    }
  }

  lemma ReadyIsFoundById(s: seq<Enb>, i: nat)
    requires ReadyAreFirst(s) && i < |s| && s[i].state == READY
    ensures First(s, ById(s[i].enbId)) == Some(i)
  {
    assert ById(s[i].enbId)(s[i]);
  }

  /** What the invariant means for two positions of the list. */
  ghost predicate Consistent(r: Registry, i: nat, j: nat)
    requires i < |r.enbs| && j < |r.enbs|
  {
    && (i != j ==> r.enbs[i].assocId != r.enbs[j].assocId)
    && (|r.enbs| < TWO_32 ==> r.nbAssociated == |r.enbs|)
    && (r.enbs[i].state == READY ==> First(r.enbs, ById(r.enbs[i].enbId)) == Some(i))
    && (r.enbs[i].state == READY && r.enbs[j].state == READY && i != j ==> r.enbs[i].enbId != r.enbs[j].enbId)
  }

  lemma InvIsConsistent(r: Registry, i: nat, j: nat)
    requires Inv(r) && i < |r.enbs| && j < |r.enbs|
    ensures Consistent(r, i, j)
  {
    if r.enbs[i].state == READY { ReadyIsFoundById(r.enbs, i); }
  }

  /** After every run: association ids are unique, the counter is the length of the list, every
      READY eNB is the entry its id finds, and so no two READY eNBs share an id. */
  lemma EveryRunIsConsistent(events: seq<Event>, i: nat, j: nat)
    requires i < |After(events).enbs| && j < |After(events).enbs|
    ensures Consistent(After(events), i, j)
  {
    EveryRunKeepsInv(events);
    InvIsConsistent(After(events), i, j);
  }

  /** A setup request is answered with a response exactly when the configuration admits it and
      either the first entry bearing the eNB id is on the requesting association, or no entry
      bears the id and the association is known. */
  lemma ResponseIff(r: Registry, q: SetupRequest)
    ensures HandleSetup(r, q).answer == Response <==>
      && q.hssAssociated && q.stream == 0 && r.nbAssociated != q.maxEnbs && q.taOk && q.encodes
      && (if exists e :: e in r.enbs && e.enbId == q.enbId
          then exists i :: 0 <= i < |r.enbs| && r.enbs[i].enbId == q.enbId && r.enbs[i].assocId == q.assocId
                           && forall j :: 0 <= j < i ==> r.enbs[j].enbId != q.enbId
          else exists e :: e in r.enbs && e.assocId == q.assocId)
  {
    var byId, byAssoc := First(r.enbs, ById(q.enbId)), First(r.enbs, ByAssoc(q.assocId));
    if byId.Some? { assert r.enbs[byId.value].enbId == q.enbId; }
    if byAssoc.Some? { assert r.enbs[byAssoc.value].assocId == q.assocId; }
  }

  /** After a response the requesting association is READY under the requested id. */
  lemma ResponseMeansReady(r: Registry, q: SetupRequest)
    requires Inv(r) && HandleSetup(r, q).answer == Response
    ensures var r' := HandleSetup(r, q).r;
      && |r'.enbs| == |r.enbs|
      && exists i :: 0 <= i < |r'.enbs| && r'.enbs[i].state == READY && r'.enbs[i].enbId == q.enbId && r'.enbs[i].assocId == q.assocId
  {
    var byId, byAssoc := First(r.enbs, ById(q.enbId)), First(r.enbs, ByAssoc(q.assocId));
    var i := if byId.Some? then byId.value else byAssoc.value;
    assert HandleSetup(r, q).r.enbs[i].state == READY;
  }

  // ---------------------------------------------------------------- losing READY

  ghost predicate ReadyOn(r: Registry, assocId: uint32) {
    exists i :: 0 <= i < |r.enbs| && r.enbs[i].assocId == assocId && r.enbs[i].state == READY
  }

  /** The request gets past the checks that come before the searches. */
  predicate Admitted(r: Registry, q: SetupRequest) {
    q.hssAssociated && q.stream == 0 && r.nbAssociated != q.maxEnbs && q.taOk
  }

  /** A request that resets or removes the entry on association `assocId` with id `enbId`: it names that
      id from another association or without a response, or gives the association a new id without
      a response. */
  ghost predicate Resets(r: Registry, q: SetupRequest, assocId: uint32, enbId: uint32) {
    && Admitted(r, q)
    && if q.enbId == enbId then q.assocId != assocId || !q.encodes
       else q.assocId == assocId && !q.encodes && forall e :: e in r.enbs ==> e.enbId != q.enbId
  }

  lemma ReadyAt(r: Registry, i: nat)
    requires i < |r.enbs| && r.enbs[i].state == READY
    ensures ReadyOn(r, r.enbs[i].assocId)
  {}

  lemma NotReadyAt(r: Registry, i: nat)
    requires AssocsDiffer(r.enbs) && i < |r.enbs| && r.enbs[i].state != READY
    ensures !ReadyOn(r, r.enbs[i].assocId)
  {}

  lemma RemovedOrKept(r: Registry, i: nat, k: nat)
    requires AssocsDiffer(r.enbs) && i < |r.enbs| && k < |r.enbs| && r.enbs[k].state == READY
    ensures ReadyOn(Remove(r, i), r.enbs[k].assocId) <==> i != k
  {
    if k < i { ReadyAt(Remove(r, i), k); }
    if i < k { ReadyAt(Remove(r, i), k - 1); }
  }

  /** A setup request that comes through at position `i`, for the READY entry at `k`. */
  lemma RespondTakesReadyIff(r: Registry, i: nat, e: Enb, encodes: bool, k: nat)
    requires AssocsDiffer(r.enbs) && i < |r.enbs| && k < |r.enbs| && r.enbs[k].state == READY
    requires e.assocId == r.enbs[i].assocId && e.state == RESETING
    ensures ReadyOn(Respond(r.(enbs := r.enbs[i := e]), i, encodes), r.enbs[k].assocId) <==> encodes || i != k
  {
    var r' := r.(enbs := r.enbs[i := e]);
    if encodes {
      ReadyAt(Respond(r', i, encodes), k);
    } else if i != k {
      RemovedOrKept(r', i, k);
    } else {
      assert forall j :: 0 <= j < |Remove(r', i).enbs| ==> Remove(r', i).enbs[j].assocId != r.enbs[k].assocId;
    }
  }

  lemma SetupTakesReadyIff(r: Registry, q: SetupRequest, k: nat)
    requires Inv(r) && k < |r.enbs| && r.enbs[k].state == READY
    ensures !ReadyOn(HandleSetup(r, q).r, r.enbs[k].assocId) <==> Resets(r, q, r.enbs[k].assocId, r.enbs[k].enbId)
  {
    var byId, byAssoc := First(r.enbs, ById(q.enbId)), First(r.enbs, ByAssoc(q.assocId));
    ReadyAt(r, k);
    ReadyIsFoundById(r.enbs, k);
    if !Admitted(r, q) {
    } else if byId.Some? {
      var i := byId.value;
      var reset := r.enbs[i].(state := RESETING);
      assert r.enbs[i] in r.enbs && r.enbs[i].enbId == q.enbId;
      assert i == k <==> q.enbId == r.enbs[k].enbId;
      if r.enbs[i].assocId == q.assocId {
        RespondTakesReadyIff(r, i, reset, q.encodes, k);
      } else if i == k {
        NotReadyAt(r.(enbs := r.enbs[i := reset]), i);
      } else {
        ReadyAt(r.(enbs := r.enbs[i := reset]), k);
      }
    } else {
      assert forall e :: e in r.enbs ==> e.enbId != q.enbId;
      assert r.enbs[k] in r.enbs;
      if byAssoc.Some? {
        var i := byAssoc.value;
        assert i == k <==> q.assocId == r.enbs[k].assocId;
        RespondTakesReadyIff(r, i, r.enbs[i].(state := RESETING, enbId := q.enbId), q.encodes, k);
      }
    }
  }

  /** Exactly when a step takes READY away from an eNB: its association is lost, or an admitted setup
      request names its id from another association, which gets no answer, or concerns its own
      association and cannot be answered. A repeated association indication does not. */
  lemma ReadyLostIff(r: Registry, ev: Event, k: nat)
    requires Inv(r) && k < |r.enbs| && r.enbs[k].state == READY
    ensures !ReadyOn(Next(r, ev), r.enbs[k].assocId) <==>
            || (ev.Disconnection? && ev.lostAssocId == r.enbs[k].assocId)
            || (ev.Setup? && Resets(r, ev.req, r.enbs[k].assocId, r.enbs[k].enbId))
  {
    match ev
    case NewAssociation(a, ins, outs) => ReadyAt(Next(r, ev), k);
    case Setup(q) => SetupTakesReadyIff(r, q, k);
    case Disconnection(a) =>
      var i := First(r.enbs, ByAssoc(a));
      ReadyAt(r, k);
      if i.Some? {
        assert i.value == k <==> a == r.enbs[k].assocId;
        RemovedOrKept(r, i.value, k);
      }
  }

  /** The setup request of another association for a READY eNB's id resets that eNB without any
      answer to anyone. */
  lemma ForeignRequestResetsSilently(r: Registry, q: SetupRequest, k: nat)
    requires Inv(r) && k < |r.enbs| && r.enbs[k].state == READY
    requires Admitted(r, q) && q.enbId == r.enbs[k].enbId && q.assocId != r.enbs[k].assocId
    ensures HandleSetup(r, q) == Reply(r.(enbs := r.enbs[k := r.enbs[k].(state := RESETING)]), Nothing)
  {
    ReadyIsFoundById(r.enbs, k);
  }

  // ---------------------------------------------------------------- what the steps write

  /** `e` is the one entry on its association. */
  ghost predicate IsOnly(s: seq<Enb>, e: Enb) {
    e in s && forall f :: f in s && f.assocId == e.assocId ==> f == e
  }

  ghost predicate OthersStay(s: seq<Enb>, s': seq<Enb>, assocId: uint32) {
    forall f: Enb :: f.assocId != assocId ==> (f in s <==> f in s')
  }

  /** An association indication leaves one entry on the association, with the streams it named and the
      next stream back at 1. It keeps its eNB id and state if it was there, else it is unset up. */
  lemma IndicationRecordsStreams(r: Registry, a: uint32, ins: uint16, outs: uint16) returns (e: Enb)
    requires Inv(r)
    ensures var r' := Next(r, NewAssociation(a, ins, outs));
      && IsOnly(r'.enbs, e) && OthersStay(r.enbs, r'.enbs, a)
      && e.assocId == a && e.inStreams == ins && e.outStreams == outs && e.nextStream == 1
    ensures forall f :: f in r.enbs && f.assocId == a ==> e.enbId == f.enbId && e.state == f.state
    ensures (forall f :: f in r.enbs ==> f.assocId != a) ==> e.enbId == 0 && e.state == RESETING
  {
    var r' := Next(r, NewAssociation(a, ins, outs));
    var found := First(r.enbs, ByAssoc(a));
    var i := if found.Some? then found.value else |r.enbs|;
    e := r'.enbs[i];
    if found.Some? {
      assert r.enbs[i] in r.enbs;
      OneEntryWritten(r.enbs, i, e);
    } else {
      assert r'.enbs == r.enbs + [e];
    }
  }

  lemma OneEntryWritten(s: seq<Enb>, i: nat, e: Enb)
    requires AssocsDiffer(s) && i < |s| && e.assocId == s[i].assocId
    ensures IsOnly(s[i := e], e) && OthersStay(s, s[i := e], e.assocId) && IsOnly(s, s[i])
  {
    assert s[i := e][i] == e;
    forall f: Enb | f.assocId != e.assocId ensures f in s <==> f in s[i := e] {
      if f in s { var j :| 0 <= j < |s| && s[j] == f; assert s[i := e][j] == f; }
    }
  }

  /** The streams the latest indication for the association named. */
  function LatestStreams(events: seq<Event>, a: uint32): Option<(uint16, uint16)> {
    if events == [] then None
    else
      var last := events[|events| - 1];
      if last.NewAssociation? && last.assocId == a then Some((last.inStreams, last.outStreams))
      else LatestStreams(events[..|events| - 1], a)
  }

  ghost predicate StreamsFollow(e: Enb, events: seq<Event>) {
    LatestStreams(events, e.assocId) == Some((e.inStreams, e.outStreams)) && e.nextStream == 1
  }

  ghost predicate SameStreams(e: Enb, f: Enb) {
    f.assocId == e.assocId && f.inStreams == e.inStreams && f.outStreams == e.outStreams && f.nextStream == e.nextStream
  }

  lemma WithoutWritten(s: seq<Enb>, i: nat, x: Enb)
    requires i < |s|
    ensures Without(s[i := x], i) == Without(s, i)
    ensures forall e :: e in Without(s, i) ==> e in s
  {}

  /** The list after a setup request: one entry is rewritten in its place or taken out, or nothing is. */
  lemma SetupShape(r: Registry, q: SetupRequest) returns (i: nat, x: Enb)
    requires HandleSetup(r, q).r != r
    ensures i < |r.enbs| && SameStreams(x, r.enbs[i])
    ensures HandleSetup(r, q).r.enbs in {r.enbs[i := x], Without(r.enbs, i)}
  {
    var byId, byAssoc := First(r.enbs, ById(q.enbId)), First(r.enbs, ByAssoc(q.assocId));
    i := if byId.Some? then byId.value else byAssoc.value;
    var reset := if byId.Some? then r.enbs[i].(state := RESETING) else r.enbs[i].(state := RESETING, enbId := q.enbId);
    WithoutWritten(r.enbs, i, reset);
    x := if q.encodes && reset.assocId == q.assocId then reset.(state := READY) else reset;
    assert r.enbs[i := reset][i := x] == r.enbs[i := x];
  }

  lemma SetupKeepsStreams(r: Registry, q: SetupRequest, e: Enb) returns (f: Enb)
    requires e in HandleSetup(r, q).r.enbs
    ensures f in r.enbs && SameStreams(e, f)
  {
    f := e;
    if e !in r.enbs {
      var i, x := SetupShape(r, q);
      WithoutWritten(r.enbs, i, x);
      f := r.enbs[i];
    }
  }

  /** Steps other than indications write no streams and add no entries. */
  lemma OtherStepsKeepStreams(r: Registry, ev: Event, e: Enb) returns (f: Enb)
    requires !ev.NewAssociation? && e in Next(r, ev).enbs
    ensures f in r.enbs && SameStreams(e, f)
  {
    match ev {
      case Setup(q) => f := SetupKeepsStreams(r, q, e);
      case Disconnection(a) => f := e;
    }
  }

  /** After every run, the streams of an entry are those of the latest indication for its association. */
  lemma {:induction false} EveryEntryHasLatestStreams(events: seq<Event>, e: Enb)
    requires e in After(events).enbs
    ensures StreamsFollow(e, events)
  {
    var front, ev := events[..|events| - 1], events[|events| - 1];
    var r := After(front);
    EveryRunKeepsInv(front);
    if ev.NewAssociation? {
      var x := IndicationRecordsStreams(r, ev.assocId, ev.inStreams, ev.outStreams);
      if e.assocId != ev.assocId {
        assert e in r.enbs;
        EveryEntryHasLatestStreams(front, e);
      }
    } else {
      var f := OtherStepsKeepStreams(r, ev, e);
      EveryEntryHasLatestStreams(front, f);
    }
  }

  // ---------------------------------------------------------------- every answer

  /** The first entry with the eNB id of the request is on another association, or there is none and the
      association of the request is unknown. */
  ghost predicate Unplaced(r: Registry, q: SetupRequest) {
    if exists e :: e in r.enbs && e.enbId == q.enbId then
      exists i :: 0 <= i < |r.enbs| && r.enbs[i].enbId == q.enbId && r.enbs[i].assocId != q.assocId
                  && forall j :: 0 <= j < i ==> r.enbs[j].enbId != q.enbId
    else forall e :: e in r.enbs ==> e.assocId != q.assocId
  }

  lemma FirstIsOnly(s: seq<Enb>, enbId: uint32, p: nat)
    requires First(s, ById(enbId)) == Some(p)
    ensures s[p].enbId == enbId && forall j :: 0 <= j < p ==> s[j].enbId != enbId
    ensures forall i :: 0 <= i < |s| && s[i].enbId == enbId ==> p <= i
  {
    forall j | 0 <= j < p ensures s[j].enbId != enbId { assert !ById(enbId)(s[j]); }
  }

  /** The condition for every answer but the response. The causes are checked in this order, and a
      request that fails a check changes nothing. */
  lemma AnswersIff(r: Registry, q: SetupRequest)
    ensures var a := HandleSetup(r, q).answer;
      && (a == Failure(MiscUnspecified) <==> !q.hssAssociated)
      && (a == Failure(ProtocolUnspecified) <==> q.hssAssociated && q.stream != 0)
      && (a == Failure(ControlProcessingOverload) <==> q.hssAssociated && q.stream == 0 && r.nbAssociated == q.maxEnbs)
      && (a == Failure(UnknownPlmn) <==> q.hssAssociated && q.stream == 0 && r.nbAssociated != q.maxEnbs && !q.taOk)
      && (a == Nothing <==> q.hssAssociated && q.stream == 0 && r.nbAssociated != q.maxEnbs && q.taOk
                            && (Unplaced(r, q) || !q.encodes))
      && (a.Failure? ==> HandleSetup(r, q).r == r)
  {
    var byId, byAssoc := First(r.enbs, ById(q.enbId)), First(r.enbs, ByAssoc(q.assocId));
    if byId.Some? { assert r.enbs[byId.value] in r.enbs; }
    if byAssoc.Some? { assert r.enbs[byAssoc.value] in r.enbs; }
    if byId.Some? {
      FirstIsOnly(r.enbs, q.enbId, byId.value);
    }
  }

  /** A setup request concerns one entry: the others stay as they are. */
  lemma SetupConcernsOne(r: Registry, q: SetupRequest)
    requires Inv(r)
    ensures HandleSetup(r, q).r == r || exists e :: e in r.enbs && OthersStay(r.enbs, HandleSetup(r, q).r.enbs, e.assocId)
  {
    if HandleSetup(r, q).r != r {
      var i, x := SetupShape(r, q);
      assert r.enbs[i] in r.enbs;
      OneEntryWritten(r.enbs, i, x);
      OneEntryRemoved(r.enbs, i);
    }
  }

  lemma OneEntryRemoved(s: seq<Enb>, i: nat)
    requires i < |s|
    ensures OthersStay(s, Without(s, i), s[i].assocId)
  {
    forall f: Enb | f.assocId != s[i].assocId ensures f in s <==> f in Without(s, i) {
      if f in s {
        var j :| 0 <= j < |s| && s[j] == f;
        assert Without(s, i)[if j < i then j else j - 1] == f;
      }
    }
  }
}
