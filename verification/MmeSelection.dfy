/**
 NAS node selection: which MME of the pool serves a new UE. The loops walk the MME tree in
 order; `s` below is that in-order sequence.
 */
module MmeSelection {
  import opened Common
  import opened SearchTree
  import opened EnbInstances

  datatype Cause = EMERGENCY | HIGH_PRIO_ACCESS | MT_ACCESS | MO_SIGNALLING | MO_DATA | DELAY_TOLERANT_ACCESS

  datatype Gummei = Gummei(mcc: uint16, mnc: uint16, groupId: uint16, code: uint8)

  // ---------------------------------------------------------------- the choice, declaratively

  /** The establishment causes an overloaded MME turns away. */
  ghost function Rejected(o: OverloadState): set<Cause> {
    match o
    case REJECT_MO_DATA => {MO_DATA}
    case REJECT_ALL_SIGNALLING => {MO_SIGNALLING, MO_DATA}
    case ONLY_EMERGENCY_AND_MT => {MO_SIGNALLING, MO_DATA, HIGH_PRIO_ACCESS}
    case NO_OVERLOAD => {}
  }

  ghost predicate Eligible(m: Mme, cause: Cause) {
    m.state == CONNECTED || (m.state == OVERLOAD && cause !in Rejected(m.overload))
  }

  ghost predicate ServesCode(m: Mme, code: uint8) {
    exists g :: g in m.gummeis && code in g.codes
  }

  ghost predicate ServesGummei(m: Mme, id: Gummei) {
    exists g :: g in m.gummeis
      && ServedPlmn(id.mcc, id.mnc) in g.plmns && id.code in g.codes && id.groupId in g.groupIds
  }

  /** `r` is the position of the first eligible MME with the highest positive capacity, None when
      no eligible MME has a positive capacity. */
  ghost predicate IsBest(s: seq<Mme>, cause: Cause, r: Option<nat>) {
    match r
    case None => forall j :: 0 <= j < |s| && Eligible(s[j], cause) ==> s[j].capacity == 0
    case Some(p) =>
      && p < |s| && Eligible(s[p], cause) && s[p].capacity > 0
      && (forall j :: 0 <= j < |s| && Eligible(s[j], cause) ==> s[j].capacity <= s[p].capacity)
      && (forall j :: 0 <= j < p && Eligible(s[j], cause) ==> s[j].capacity < s[p].capacity)
  }

  /** `p` is the position of the first eligible MME that satisfies `serves`. */
  ghost predicate IsFirst(s: seq<Mme>, cause: Cause, serves: Mme -> bool, p: nat) {
    && p < |s| && Eligible(s[p], cause) && serves(s[p])
    && forall j :: 0 <= j < p && Eligible(s[j], cause) ==> !serves(s[j])
  }

  ghost predicate NoneServes(s: seq<Mme>, cause: Cause, serves: Mme -> bool) {
    forall j :: 0 <= j < |s| && Eligible(s[j], cause) ==> !serves(s[j])
  }

  /** An identity stage: the first eligible match, else the best by capacity. */
  ghost predicate IsChoice(s: seq<Mme>, cause: Cause, serves: Mme -> bool, r: Option<nat>) {
    if NoneServes(s, cause, serves) then IsBest(s, cause, r)
    else r.Some? && IsFirst(s, cause, serves, r.value)
  }

  ghost function ByCode(code: uint8): Mme -> bool {
    (m: Mme) => ServesCode(m, code)
  }

  ghost function ByGummei(id: Gummei): Mme -> bool {
    (m: Mme) => ServesGummei(m, id)
  }

  // ---------------------------------------------------------------- the loops

  /** The nested tests at the head of each selection loop: true means `continue`. */
  method Skips(m: Mme, cause: Cause) returns (skip: bool)
    ensures skip == !Eligible(m, cause)
  {
    if m.state != CONNECTED {
      if m.state == OVERLOAD {
        if cause == MO_DATA && m.overload == REJECT_MO_DATA { return true; }
        if m.overload == REJECT_ALL_SIGNALLING && (cause == MO_SIGNALLING || cause == MO_DATA) { return true; }
        if m.overload == ONLY_EMERGENCY_AND_MT
           && (cause == MO_SIGNALLING || cause == MO_DATA || cause == HIGH_PRIO_ACCESS) { return true; }
      } else {
        return true;
      }
    }
    return false;
  }

  /** The best so far after one more MME. */
  function Better(s: seq<Mme>, r: Option<nat>, i: nat): Option<nat>
    requires i < |s| && (r.Some? ==> r.value < |s|)
  {
    if (if r.Some? then s[r.value].capacity else 0) < s[i].capacity then Some(i) else r
  }

  lemma BestExtends(s: seq<Mme>, cause: Cause, r: Option<nat>, i: nat)
    requires i < |s| && IsBest(s[..i], cause, r)
    ensures IsBest(s[..i + 1], cause, if Eligible(s[i], cause) then Better(s, r, i) else r)
  {
    assert s[..i + 1] == s[..i] + [s[i]];
  }

  lemma NoneServesExtends(s: seq<Mme>, cause: Cause, serves: Mme -> bool, i: nat)
    requires i < |s| && NoneServes(s[..i], cause, serves)
    ensures NoneServes(s[..i + 1], cause, serves) <==> !(Eligible(s[i], cause) && serves(s[i]))
    ensures Eligible(s[i], cause) && serves(s[i]) ==> IsFirst(s, cause, serves, i) && !NoneServes(s, cause, serves)
  {
    assert s[..i + 1] == s[..i] + [s[i]];
    assert forall j :: 0 <= j < i ==> s[..i][j] == s[j];
  }

  method SelectMme(s: seq<Mme>, cause: Cause) returns (r: Option<nat>)
    ensures IsBest(s, cause, r)
  {
    var capacity := 0;
    r := None;
    for i := 0 to |s|
      invariant IsBest(s[..i], cause, r)
      invariant capacity == if r.Some? then s[r.value].capacity else 0
    {
      BestExtends(s, cause, r, i);
      var skip := Skips(s[i], cause);
      if skip { continue; }
      if capacity < s[i].capacity {
        capacity := s[i].capacity;
        r := Some(i);
      }
    }
    assert s[..|s|] == s;
  }

  method HasCode(m: Mme, code: uint8) returns (found: bool)
    ensures found == ServesCode(m, code)
  {
    for g := 0 to |m.gummeis|
      invariant forall h :: 0 <= h < g ==> code !in m.gummeis[h].codes
    {
      for c := 0 to |m.gummeis[g].codes|
        invariant forall d :: 0 <= d < c ==> m.gummeis[g].codes[d] != code
      {
        if m.gummeis[g].codes[c] == code { return true; }
      }
    }
    return false;
  }

  method SelectMmeByCode(s: seq<Mme>, cause: Cause, code: uint8) returns (r: Option<nat>)
    ensures IsChoice(s, cause, ByCode(code), r)
  {
    var capacity := 0;
    r := None;
    for i := 0 to |s|
      invariant NoneServes(s[..i], cause, ByCode(code)) && IsBest(s[..i], cause, r)
      invariant capacity == if r.Some? then s[r.value].capacity else 0
    {
      BestExtends(s, cause, r, i);
      NoneServesExtends(s, cause, ByCode(code), i);
      var skip := Skips(s[i], cause);
      if skip { continue; }
      if capacity < s[i].capacity {
        capacity := s[i].capacity;
        r := Some(i);
      }
      var found := HasCode(s[i], code);
      if found { return Some(i); }
    }
    assert s[..|s|] == s;
  }

  /** A STAILQ_FOREACH that stops at the first match; the list is exhausted when there is none. */
  method Finds<T(==)>(s: seq<T>, x: T) returns (found: bool)
    ensures found == (x in s)
  {
    for i := 0 to |s|
      invariant x !in s[..i]
    {
      if s[i] == x { return true; }
    }
    return false;
  }

  method HasGummei(m: Mme, id: Gummei) returns (found: bool)
    ensures found == ServesGummei(m, id)
  {
    for g := 0 to |m.gummeis|
      invariant forall h :: 0 <= h < g ==>
                  !(ServedPlmn(id.mcc, id.mnc) in m.gummeis[h].plmns && id.code in m.gummeis[h].codes
                    && id.groupId in m.gummeis[h].groupIds)
    {
      var plmn := Finds(m.gummeis[g].plmns, ServedPlmn(id.mcc, id.mnc));
      var code := Finds(m.gummeis[g].codes, id.code);
      var group := Finds(m.gummeis[g].groupIds, id.groupId);
      if group && code && plmn { return true; }
    }
    return false;
  }

  method SelectMmeByGummei(s: seq<Mme>, cause: Cause, id: Gummei) returns (r: Option<nat>)
    ensures IsChoice(s, cause, ByGummei(id), r)
  {
    var capacity := 0;
    r := None;
    for i := 0 to |s|
      invariant NoneServes(s[..i], cause, ByGummei(id)) && IsBest(s[..i], cause, r)
      invariant capacity == if r.Some? then s[r.value].capacity else 0
    {
      BestExtends(s, cause, r, i);
      NoneServesExtends(s, cause, ByGummei(id), i);
      var skip := Skips(s[i], cause);
      if skip { continue; }
      if capacity < s[i].capacity {
        capacity := s[i].capacity;
        r := Some(i);
      }
      var found := HasGummei(s[i], id);
      if found { return Some(i); }
    }
    assert s[..|s|] == s;
  }

  // ---------------------------------------------------------------- the chain

  /** What the chain of the first NAS request chooses, with no mention of its stages: with a
      GUMMEI the first eligible match; without a GUMMEI match, the best by capacity if there is
      one; the S-TMSI's MME code decides only where neither does, or where no GUMMEI came. */
  ghost predicate IsChainChoice(s: seq<Mme>, cause: Cause, gummei: Option<Gummei>, code: Option<uint8>, r: Option<nat>) {
    if gummei.Some? && !NoneServes(s, cause, ByGummei(gummei.value)) then
      r.Some? && IsFirst(s, cause, ByGummei(gummei.value), r.value)
    else if code.Some? && !NoneServes(s, cause, ByCode(code.value)) && (gummei.None? || IsBest(s, cause, None)) then
      r.Some? && IsFirst(s, cause, ByCode(code.value), r.value)
    else IsBest(s, cause, r)
  }

  lemma BestIsUnique(s: seq<Mme>, cause: Cause, a: Option<nat>, b: Option<nat>)
    requires IsBest(s, cause, a) && IsBest(s, cause, b)
    ensures a == b
  {
    if a.Some? && b.Some? && a.value < b.value { assert false; }
    if a.Some? && b.Some? && b.value < a.value { assert false; }
  }

  method SelectForFirstRequest(s: seq<Mme>, cause: Cause, gummei: Option<Gummei>, code: Option<uint8>) returns (r: Option<nat>)
    ensures IsChainChoice(s, cause, gummei, code, r)
  {
    r := None;
    if gummei.Some? {
      r := SelectMmeByGummei(s, cause, gummei.value);
    }
    if r.None? && code.Some? {
      r := SelectMmeByCode(s, cause, code.value);
    }
    if r.None? {
      r := SelectMme(s, cause);
    }
  }

  /** The choice is determined: two answers that meet the description are the same. */
  lemma ChainChoiceIsUnique(s: seq<Mme>, cause: Cause, gummei: Option<Gummei>, code: Option<uint8>, a: Option<nat>, b: Option<nat>)
    requires IsChainChoice(s, cause, gummei, code, a) && IsChainChoice(s, cause, gummei, code, b)
    ensures a == b
  {
    if IsBest(s, cause, a) && IsBest(s, cause, b) {
      BestIsUnique(s, cause, a, b);
    } else {
      if a.value < b.value { assert false; }
      if b.value < a.value { assert false; }
    }
  }

  /** The overload levels nest: each turns away one more cause than the one before, mobile originated
      data first, then signalling, then high priority access. The other causes always get through. */
  lemma OverloadLevelsNest(cause: Cause, m: Mme)
    requires m.state == OVERLOAD
    ensures m.overload == NO_OVERLOAD ==> Eligible(m, cause)
    ensures m.overload == REJECT_MO_DATA ==> (Eligible(m, cause) <==> cause != MO_DATA)
    ensures m.overload == REJECT_ALL_SIGNALLING ==> (Eligible(m, cause) <==> cause != MO_DATA && cause != MO_SIGNALLING)
    ensures m.overload == ONLY_EMERGENCY_AND_MT ==>
              (Eligible(m, cause) <==> cause == EMERGENCY || cause == MT_ACCESS || cause == DELAY_TOLERANT_ACCESS)
  {}

  /** An MME whose state or overload forbids the cause is never chosen. */
  lemma ChoiceIsEligible(s: seq<Mme>, cause: Cause, gummei: Option<Gummei>, code: Option<uint8>, r: Option<nat>)
    requires IsChainChoice(s, cause, gummei, code, r) && r.Some?
    ensures r.value < |s| && Eligible(s[r.value], cause)
  {}

  /** No MME is chosen exactly when no eligible one has a positive capacity and no identity that
      came with the request matches an eligible one. */
  lemma NoChoiceIff(s: seq<Mme>, cause: Cause, gummei: Option<Gummei>, code: Option<uint8>, r: Option<nat>)
    requires IsChainChoice(s, cause, gummei, code, r)
    ensures r.None? <==>
      && IsBest(s, cause, None)
      && (gummei.Some? ==> NoneServes(s, cause, ByGummei(gummei.value)))
      && (code.Some? ==> NoneServes(s, cause, ByCode(code.value)))
  {
    if IsBest(s, cause, None) && IsBest(s, cause, r) { BestIsUnique(s, cause, None, r); }
  }

  /** Once a GUMMEI came and an eligible MME has positive capacity, the S-TMSI changes nothing:
      whatever codes two requests carry, they get the same answer. */
  lemma TmsiIsIgnoredAfterGummei(s: seq<Mme>, cause: Cause, id: Gummei, code1: Option<uint8>, code2: Option<uint8>, r1: Option<nat>, r2: Option<nat>)
    requires IsChainChoice(s, cause, Some(id), code1, r1) && IsChainChoice(s, cause, Some(id), code2, r2)
    requires exists j :: 0 <= j < |s| && Eligible(s[j], cause) && s[j].capacity > 0
    ensures r1 == r2
  {
    assert IsChainChoice(s, cause, Some(id), code1, r2);
    ChainChoiceIsUnique(s, cause, Some(id), code1, r1, r2);
  }
}
