/**
 The eNB's S1 Setup procedure (3GPP TS 36.413 section 8.7.3): associations with MMEs are
 registered, come up, are answered and are lost, while three counters decide when the
 application hears about it.
 */
module S1SetupAccounting {
  import opened Common
  import opened SearchTree
  import opened EnbInstances
  import opened Counting

  datatype World = World(globalCnxId: uint16, instances: seq<Instance>)

  const EMPTY_WORLD := World(0, [])

  datatype SctpResult = Established(assocId: int, inStreams: uint16, outStreams: uint16) | Shutdown | Unsuccessful

  datatype Event =
    | NewInstance(id: int, config: EnbConfig)
    | RegisterMme(k: nat)
    | SctpResp(id: int, cnxId: uint16, result: SctpResult)
    | SetupResponse(assocId: int, stream: nat, capacity: uint8, served: seq<ServedGummei>)
    | SetupFailure(assocId: int)

  /** Messages to the eNB application. */
  datatype Notice = RegisterCnf(instance: int, nbMme: nat) | Deregistered(instance: int)

  /** Fatal is the process stopping at one of the handlers' checks. */
  datatype Outcome = Done | Fatal

  // ---------------------------------------------------------------- the steps

  function FindInstance(s: seq<Instance>, id: int): (k: Option<nat>)
    ensures k.Some? ==> k.value < |s| && s[k.value].id == id
    ensures k.None? ==> forall j :: 0 <= j < |s| ==> s[j].id != id
  {
    if s == [] then None
    else if s[0].id == id then Some(0)
    else match FindInstance(s[1..], id)
      case None => None
      case Some(k) => Some(k + 1)
  }

  datatype Ref = Ref(k: nat, p: nat)

  /** s1ap_eNB_get_MME without an instance: the first instance whose tree answers. */
  function GetMme(s: seq<Instance>, assocId: int, cnxId: uint16): (r: Option<Ref>)
    ensures r.Some? ==> r.value.k < |s| && Lookup(s[r.value.k].mmes, assocId, cnxId) == Some(r.value.p)
    ensures r.None? ==> forall k :: 0 <= k < |s| ==> Lookup(s[k].mmes, assocId, cnxId).None?
  {
    if s == [] then None
    else match Lookup(s[0].mmes, assocId, cnxId)
      case Some(p) => Some(Ref(0, p))
      case None =>
        match GetMme(s[1..], assocId, cnxId)
        case None => None
        case Some(r) => Some(Ref(r.k + 1, r.p))
  }

  /** The number of MME addresses a registration may list. */
  const MAX_NB_MME: nat := 10

  function NewInstanceOf(id: int, config: EnbConfig): Instance {
    Instance(id, config, Leaf, Leaf, 0, 0, 0)
  }

  function WriteMme(i: Instance, p: nat, m: Mme): Instance
    requires p < |InOrder(i.mmes)|
  {
    i.(mmes := Write(i.mmes, p, m))
  }

  datatype Reply = Reply(i: Instance, notices: seq<Notice>, out: Outcome)

  /** s1ap_handle_s1_setup_message. */
  function SetupMessage(i: Instance, p: nat, shutdown: bool): Reply
    requires p < |InOrder(i.mmes)|
  {
    var m := InOrder(i.mmes)[p];
    if shutdown then
      if m.state == CONNECTED then
        var left := if i.associatedNb > 0 then i.associatedNb - 1 else i.associatedNb;
        Reply(WriteMme(i, p, m.(state := DISCONNECTED)).(associatedNb := left),
              if left == 0 then [Deregistered(i.id)] else [], Done)
      else Reply(i, [], Done)
    else if i.pendingNb == 0 then Reply(i, [], Fatal)
    else
      Reply(i.(pendingNb := i.pendingNb - 1),
            if i.pendingNb == 1 then [RegisterCnf(i.id, i.associatedNb)] else [], Done)
  }

  /** The list the response handler builds: as many entries as the message has, all of them copies
      of the first, because the copying loops index the message with the outer counter. */
  function CopiesOfFirst<T>(s: seq<T>): seq<T> {
    seq(|s|, i requires 0 <= i < |s| => s[0])
  }

  function Known(g: ServedGummei): ServedGummei {
    ServedGummei(CopiesOfFirst(g.plmns), CopiesOfFirst(g.groupIds), CopiesOfFirst(g.codes))
  }

  /** The part of a handler that works on the descriptor it found. */
  function Apply(i: Instance, p: nat, ev: Event): Reply
    requires p < |InOrder(i.mmes)|
    requires ev.SctpResp? || ev.SetupResponse? || ev.SetupFailure?
  {
    var m := InOrder(i.mmes)[p];
    match ev
    case SctpResp(_, _, Established(a, ins, outs)) =>
      Reply(WriteMme(i, p, m.(assocId := a, inStreams := ins, outStreams := outs, state := WAITING)), [], Done)
    case SctpResp(_, _, Shutdown) => SetupMessage(i, p, true)
    case SctpResp(_, _, Unsuccessful) => SetupMessage(i, p, false)
    case SetupResponse(_, _, capacity, served) =>
      if |served| != 1 then Reply(i, [], Fatal)
      else
        var m' := m.(gummeis := m.gummeis + [Known(served[0])], capacity := capacity, state := CONNECTED);
        SetupMessage(WriteMme(i, p, m').(associatedNb := Inc32(i.associatedNb)), p, false)
    case SetupFailure(_) => SetupMessage(WriteMme(i, p, m.(state := WAITING)), p, false)
  }

  /** The descriptor a message is about. A response on a stream other than 0 is dropped. */
  function Target(w: World, ev: Event): (r: Option<Ref>)
    requires ev.SctpResp? || ev.SetupResponse? || ev.SetupFailure?
    ensures r.Some? ==> r.value.k < |w.instances| && r.value.p < |InOrder(w.instances[r.value.k].mmes)|
  {
    match ev
    case SctpResp(id, cnxId, _) =>
      (match FindInstance(w.instances, id)
       case None => None
       case Some(k) =>
         match Lookup(w.instances[k].mmes, -1, cnxId)
         case None => None
         case Some(p) => Some(Ref(k, p)))
    case SetupResponse(a, stream, _, _) => if stream != 0 then None else GetMme(w.instances, a, 0)
    case SetupFailure(a) => GetMme(w.instances, a, 0)
  }

  function TargetMme(w: World, r: Ref): Mme
    requires r.k < |w.instances| && r.p < |InOrder(w.instances[r.k].mmes)|
  {
    InOrder(w.instances[r.k].mmes)[r.p]
  }

  datatype WorldReply = WorldReply(w: World, notices: seq<Notice>, out: Outcome)

  /** A message without a target is a no-op, except that an SCTP answer has to have one. */
  function Handle(w: World, ev: Event): WorldReply
    requires ev.SctpResp? || ev.SetupResponse? || ev.SetupFailure?
  {
    match Target(w, ev)
    case None => WorldReply(w, [], if ev.SctpResp? then Fatal else Done)
    case Some(r) =>
      var reply := Apply(w.instances[r.k], r.p, ev);
      WorldReply(w.(instances := w.instances[r.k := reply.i]), reply.notices, reply.out)
  }

  /** s1ap_eNB_register_mme. The tree is left balanced in any way. */
  ghost predicate Registered(w: World, k: nat, w': World) {
    && k < |w.instances|
    && var cnxId: uint16 := (w.globalCnxId + 1) % TWO_16;
    var i, m := w.instances[k], NewMme(cnxId);
    exists t: Tree<Mme> :: InOrder(t) == InOrder(Insert(i.mmes, m, Against(m)))
      && w' == World(cnxId, w.instances[k := i.(mmes := t, mmeNb := Inc32(i.mmeNb),
                                                pendingNb := Inc32(i.pendingNb))])
  }

  ghost predicate Step(w: World, ev: Event, w': World, notices: seq<Notice>, out: Outcome) {
    match ev
    case NewInstance(id, config) =>
      && notices == []
      && (match FindInstance(w.instances, id)
          case Some(k) => w' == w && out == if w.instances[k].config == config then Done else Fatal
          case None => w' == w.(instances := w.instances + [NewInstanceOf(id, config)]) && out == Done)
    case RegisterMme(k) => Registered(w, k, w') && notices == [] && out == Done
    case _ => WorldReply(w', notices, out) == Handle(w, ev)
  }

  // ---------------------------------------------------------------- the handlers

  /** One of the copying loops. It reads the list at the position of the served GUMMEI in the message,
      which is 0, and not at its own counter. */
  method CopyList<T>(list: seq<T>) returns (copies: seq<T>)
    ensures copies == CopiesOfFirst(list)
  {
    copies := [];
    for j := 0 to |list|
      invariant copies == CopiesOfFirst(list)[..j]
    {
      copies := copies + [list[0]];
    }
  }

  method CopyServed(served: ServedGummei) returns (known: ServedGummei)
    ensures known == Known(served)
  {
    var plmns := CopyList(served.plmns);
    var groupIds := CopyList(served.groupIds);
    var codes := CopyList(served.codes);
    known := ServedGummei(plmns, groupIds, codes);
  }

  class EnbS1ap {
    var globalCnxId: uint16
    var instances: seq<Instance>
    ghost var notices: seq<Notice>

    constructor ()
      ensures State() == EMPTY_WORLD && notices == []
    {
      globalCnxId, instances, notices := 0, [], [];
    }

    function State(): World
      reads this
    {
      World(globalCnxId, instances)
    }

    method RegisterOneMme(k: nat)
      requires k < |instances|
      modifies this
      ensures Step(old(State()), RegisterMme(k), State(), [], Done) && notices == old(notices)
      ensures |instances| == |old(instances)|
    {
      globalCnxId := (globalCnxId + 1) % TWO_16;
      var m := NewMme(globalCnxId);
      var i := instances[k];
      var t :| InOrder(t) == InOrder(Insert(i.mmes, m, Against(m)));
      instances := instances[k := i.(mmes := t, mmeNb := Inc32(i.mmeNb), pendingNb := Inc32(i.pendingNb))];
    }

    /** s1ap_eNB_handle_register_eNB: `chain` lists the states between its registrations. A changed
        configuration and too many addresses stop the process, the latter with the instance made. */
    method HandleRegisterEnb(id: int, config: EnbConfig, nbMme: nat) returns (out: Outcome, k: nat, ghost chain: seq<World>)
      modifies this
      ensures |chain| > 0 && chain[|chain| - 1] == State() && notices == old(notices)
      ensures k < |chain[0].instances| && FindInstance(chain[0].instances, id) == Some(k)
      ensures var first := if chain[0].instances[k].config == config then Done else Fatal;
        && Step(old(State()), NewInstance(id, config), chain[0], [], first)
        && (out == Done <==> first == Done && nbMme <= 10)
      ensures |chain| == if out == Done then nbMme + 1 else 1
      ensures forall j :: 0 <= j < |chain| - 1 ==> Step(chain[j], RegisterMme(k), chain[j + 1], [], Done)
    {
      var found := FindInstance(instances, id);
      chain := [State()];
      if found.Some? {
        k := found.value;
        if instances[k].config != config { return Fatal, k, chain; }
      } else {
        k := |instances|;
        instances := instances + [NewInstanceOf(id, config)];
        FindAppended(old(instances), NewInstanceOf(id, config));
        chain := [State()];
      }
      if nbMme > MAX_NB_MME { return Fatal, k, chain; }
      out := Done;
      for j := 0 to nbMme
        invariant |chain| == j + 1 && chain[j] == State() && k < |instances| && notices == old(notices)
        invariant FindInstance(chain[0].instances, id) == Some(k) && chain[0].instances[k].config == config
        invariant Step(old(State()), NewInstance(id, config), chain[0], [], Done)
        invariant forall n :: 0 <= n < j ==> Step(chain[n], RegisterMme(k), chain[n + 1], [], Done)
      {
        RegisterOneMme(k);
        chain := chain + [State()];
      }
    }

    method HandleSetupMessage(k: nat, p: nat, shutdown: bool) returns (out: Outcome)
      requires k < |instances| && p < |InOrder(instances[k].mmes)|
      modifies this`instances, this`notices
      ensures var r := SetupMessage(old(instances[k]), p, shutdown);
        instances == old(instances)[k := r.i] && notices == old(notices) + r.notices && out == r.out
    {
      var i := instances[k];
      var m := InOrder(i.mmes)[p];
      out := Done;
      if shutdown {
        if m.state == CONNECTED {
          i := WriteMme(i, p, m.(state := DISCONNECTED));
          if i.associatedNb > 0 { i := i.(associatedNb := i.associatedNb - 1); }
          if i.associatedNb == 0 { notices := notices + [Deregistered(i.id)]; }
        }
      } else {
        if i.pendingNb == 0 { return Fatal; }
        i := i.(pendingNb := i.pendingNb - 1);
        if i.pendingNb == 0 { notices := notices + [RegisterCnf(i.id, i.associatedNb)]; }
      }
      instances := instances[k := i];
    }

    method HandleSctpAssociationResp(id: int, cnxId: uint16, result: SctpResult) returns (out: Outcome)
      modifies this
      ensures var r := Handle(old(State()), SctpResp(id, cnxId, result));
        State() == r.w && notices == old(notices) + r.notices && out == r.out
    {
      var k := FindInstance(instances, id);
      if k.None? { return Fatal; }
      var p := Lookup(instances[k.value].mmes, -1, cnxId);
      if p.None? { return Fatal; }
      if !result.Established? {
        out := HandleSetupMessage(k.value, p.value, result.Shutdown?);
        return;
      }
      var i := instances[k.value];
      var m := InOrder(i.mmes)[p.value];
      m := m.(assocId := result.assocId, inStreams := result.inStreams, outStreams := result.outStreams);
      m := m.(state := WAITING);
      instances := instances[k.value := WriteMme(i, p.value, m)];
      out := Done;
    }

    method HandleS1SetupResponse(assocId: int, stream: nat, capacity: uint8, served: seq<ServedGummei>) returns (out: Outcome)
      modifies this
      ensures var r := Handle(old(State()), SetupResponse(assocId, stream, capacity, served));
        State() == r.w && notices == old(notices) + r.notices && out == r.out
    {
      out := Done;
      if stream != 0 { return; }
      var r := GetMme(instances, assocId, 0);
      if r.None? { return; }
      var Ref(k, p) := r.value;
      var i := instances[k];
      var m := InOrder(i.mmes)[p];
      if |served| != 1 { return Fatal; }
      var known := CopyServed(served[0]);
      m := m.(gummeis := m.gummeis + [known]);
      m := m.(capacity := capacity, state := CONNECTED);
      instances := instances[k := WriteMme(i, p, m).(associatedNb := Inc32(i.associatedNb))];
      out := HandleSetupMessage(k, p, false);
    }

    method HandleS1SetupFailure(assocId: int) returns (out: Outcome)
      modifies this
      ensures var r := Handle(old(State()), SetupFailure(assocId));
        State() == r.w && notices == old(notices) + r.notices && out == r.out
    {
      out := Done;
      var r := GetMme(instances, assocId, 0);
      if r.None? { return; }
      var Ref(k, p) := r.value;
      var m := InOrder(instances[k].mmes)[p];
      instances := instances[k := WriteMme(instances[k], p, m.(state := WAITING))];
      out := HandleSetupMessage(k, p, false);
    }
  }

  lemma {:induction false} FindAppended(s: seq<Instance>, i: Instance)
    requires FindInstance(s, i.id).None?
    ensures FindInstance(s + [i], i.id) == Some(|s|)
  {
    if s != [] {
      assert (s + [i])[1..] == s[1..] + [i];
      FindAppended(s[1..], i);
    }
  }
}
