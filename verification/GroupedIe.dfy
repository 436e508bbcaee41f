/**
 The walk over a grouped bearer context IE of an S11 message (3GPP TS 29.274 sections 8.2 and
 8.28). The cursor has 8 bits and the member lengths 16, so on octets that are not framed as
 members the cursor may wrap, and the walk may never end.
 */
module GroupedIe {
  import opened Common
  import opened Counting
  import opened Bits
  import opened BitStrings

  const EBI: uint8 := 73
  const BEARER_LEVEL_QOS: uint8 := 80
  const FTEID: uint8 := 87
  const CAUSE: uint8 := 2
  const HEADER: int := 4

  /** The octets from the IE's value on that the walk may read: the cursor stays below 256, and a
      member takes a header and at most 25 octets of value. */
  const ROOM: int := 284

  function Zeros(n: nat): (s: seq<uint8>)
    ensures |s| == n
  {
    if n == 0 then [] else Zeros(n - 1) + [0]
  }

  type Memory = s: seq<uint8> | ROOM <= |s| witness Zeros(ROOM)

  /** Bearer context to create, to modify, created. */
  datatype Kind = ToCreate | ToModify | Created

  datatype Fteid = Fteid(ipv4: bool, ipv6: bool, interfaceType: uint8, teid: nat,
                         ipv4Address: seq<uint8>, ipv6Address: seq<uint8>)

  datatype Context = Context(ebi: uint8, cause: uint8, fteid: Fteid)

  datatype Rc = NwOk | IeIncorrect

  predicate Accepts(kind: Kind, t: uint8) {
    || t == EBI
    || (t == BEARER_LEVEL_QOS && kind == ToCreate)
    || (t == FTEID && kind != ToCreate)
    || (t == CAUSE && kind == Created)
  }

  // ---------------------------------------------------------------- one member

  function HasIpv4(flags: uint8): bool { flags / 128 == 1 }

  function HasIpv6(flags: uint8): bool { flags / 64 % 2 == 1 }

  /** The value is long enough for what its type and flags announce. */
  predicate Complete(t: uint8, v: seq<uint8>) {
    && (t == EBI || t == CAUSE ==> |v| >= 1)
    && (t == FTEID ==> |v| >= 5 && |v| >= 5 + (if HasIpv4(v[0]) then 4 else 0) + if HasIpv6(v[0]) then 16 else 0)
  }

  /** An absent address leaves the stored one as it is. */
  function ApplyFteid(f: Fteid, v: seq<uint8>): Fteid
    requires Complete(FTEID, v)
  {
    var offset := if HasIpv4(v[0]) then 9 else 5;
    Fteid(HasIpv4(v[0]), HasIpv6(v[0]), v[0] % 32, BigEndian(v[1..5]),
          if HasIpv4(v[0]) then v[5..9] else f.ipv4Address,
          if HasIpv6(v[0]) then v[offset..offset + 16] else f.ipv6Address)
  }

  function Apply(c: Context, t: uint8, v: seq<uint8>): Context
    requires Complete(t, v)
  {
    if t == EBI then c.(ebi := v[0] % 16)
    else if t == CAUSE then c.(cause := v[0])
    else if t == FTEID then c.(fteid := ApplyFteid(c.fteid, v))
    else c
  }

  /** A complete value decodes alike whatever follows it. */
  lemma ApplyIgnoresRest(c: Context, t: uint8, v: seq<uint8>, rest: seq<uint8>)
    requires Complete(t, v)
    ensures Complete(t, v + rest) && Apply(c, t, v + rest) == Apply(c, t, v)
  {
    if t == FTEID {
      var w := v + rest;
      assert w[1..5] == v[1..5];
      assert HasIpv4(v[0]) ==> w[5..9] == v[5..9];
      assert HasIpv6(v[0]) ==> var offset := if HasIpv4(v[0]) then 9 else 5; w[offset..offset + 16] == v[offset..offset + 16];
    }
  }

  // ---------------------------------------------------------------- the walk

  function LengthAt(ie: Memory, read: uint8): nat {
    ie[read + 1] as int * TWO_8 + ie[read + 2]
  }

  /** Addition in the cursor's 8 bits. */
  function Next(ie: Memory, read: uint8): uint8 {
    (read + LengthAt(ie, read) + HEADER) % TWO_8
  }

  function ValueAt(ie: Memory, read: uint8): (v: seq<uint8>)
    ensures |v| == 25
  {
    ie[read + HEADER..read + HEADER + 25]
  }

  function Turn(ie: Memory, read: uint8, c: Context): Context {
    Apply(c, ie[read], ValueAt(ie, read))
  }

  /** The cursor after `k` members. */
  function Cursor(ie: Memory, k: nat): uint8 {
    if k == 0 then 0 else Next(ie, Cursor(ie, k - 1))
  }

  /** The walk is over when the cursor stands after `k` members: past the end or at a type the
      context does not hold. */
  predicate Over(kind: Kind, ie: Memory, length: uint8, k: nat) {
    Cursor(ie, k) >= length || !Accepts(kind, ie[Cursor(ie, k)])
  }

  ghost predicate StopsAt(kind: Kind, ie: Memory, length: uint8, k: nat) {
    Over(kind, ie, length, k) && forall j :: 0 <= j < k ==> !Over(kind, ie, length, j)
  }

  ghost predicate Stops(kind: Kind, ie: Memory, length: uint8) {
    exists k: nat :: Over(kind, ie, length, k)
  }

  function ContextAfter(ie: Memory, c: Context, k: nat): Context {
    if k == 0 then c
    else
      Turn(ie, Cursor(ie, k - 1), ContextAfter(ie, c, k - 1))
  }

  lemma FirstStop(kind: Kind, ie: Memory, length: uint8) returns (n: nat)
    requires Stops(kind, ie, length)
    ensures StopsAt(kind, ie, length, n)
  {
    var k: nat :| Over(kind, ie, length, k);
    n := 0;
    while !Over(kind, ie, length, n)
      invariant n <= k && forall j :: 0 <= j < n ==> !Over(kind, ie, length, j)
      decreases k - n
    {
      n := n + 1;
    }
  }

  class BearerContext {
    var ebi: uint8
    var cause: uint8
    var fteid: Fteid

    ghost function Value(): Context
      reads this
    {
      Context(ebi, cause, fteid)
    }

    /** s11_fteid_ie_get. */
    method GetFteid(v: seq<uint8>)
      requires Complete(FTEID, v)
      modifies this`fteid
      ensures Value() == Apply(old(Value()), FTEID, v)
    {
      var offset := 0;
      fteid := fteid.(ipv4 := v[0] / 128 == 1, ipv6 := v[0] / 64 % 2 == 1, interfaceType := v[0] % 32);
      FourOctets(v[1], v[2], v[3], v[4]);
      assert v[1..5] == [v[1], v[2], v[3], v[4]];
      fteid := fteid.(teid := Or(Or(Or(Shl(v[1], 24), Shl(v[2], 16)), Shl(v[3], 8)), v[4]));
      if fteid.ipv4 {
        fteid := fteid.(ipv4Address := v[5..9]);
        offset := 4;
      }
      if fteid.ipv6 {
        fteid := fteid.(ipv6Address := v[5 + offset..21 + offset]);
      }
    }

    /** One turn of the walk: what the switch does with the member at the cursor. */
    method GetMember(kind: Kind, ie: Memory, read: uint8) returns (accepted: bool)
      modifies this
      ensures accepted == Accepts(kind, ie[read])
      ensures Value() == if accepted then Turn(ie, read, old(Value())) else old(Value())
    {
      var t, v := ie[read], ValueAt(ie, read);
      if t == EBI {
        ebi := v[0] % 16;
      } else if t == BEARER_LEVEL_QOS && kind == ToCreate {
      } else if t == FTEID && kind != ToCreate {
        GetFteid(v);
      } else if t == CAUSE && kind == Created {
        cause := v[0];
      } else {
        return false;
      }
      return true;
    }

    /** The three functions s11_bearer_context_ie_get, s11_bearer_context_to_modifiy_ie_get and
        s11_bearer_context_created_ie_get, which differ in the types they accept. */
    method Get(kind: Kind, ie: Memory, ieLength: uint8) returns (rc: Rc)
      requires Stops(kind, ie, ieLength)
      modifies this
      ensures Walked(kind, ie, ieLength, old(Value()), rc, Value())
    {
      ghost var n := FirstStop(kind, ie, ieLength);
      ghost var i: nat := 0;
      var read: uint8 := 0;
      while ieLength > read
        invariant Walking(kind, ie, ieLength, old(Value()), n, i, read, Value())
        decreases n - i
      {
        WalkOn(kind, ie, ieLength, old(Value()), n, i, Value());
        var accepted := GetMember(kind, ie, read);
        if !accepted {
          return IeIncorrect;
        }
        read := Next(ie, read);
        i := i + 1;
      }
      return NwOk;
    }
  }

  /** The outcome of a walk: the fold of the members before the first stop, and no error exactly when
      the walk came to the end. */
  ghost predicate Walked(kind: Kind, ie: Memory, length: uint8, c: Context, rc: Rc, c': Context) {
    exists k: nat ::
      && StopsAt(kind, ie, length, k) && c' == ContextAfter(ie, c, k)
      && (rc == NwOk <==> Cursor(ie, k) >= length)
  }

  /** The state of the walk before its stop at `n`, after `i` members. */
  ghost predicate Walking(kind: Kind, ie: Memory, length: uint8, c: Context, n: nat, i: nat, read: uint8, c': Context) {
    StopsAt(kind, ie, length, n) && i <= n && read == Cursor(ie, i) && c' == ContextAfter(ie, c, i)
  }

  lemma WalkOn(kind: Kind, ie: Memory, length: uint8, c: Context, n: nat, i: nat, c': Context)
    requires Walking(kind, ie, length, c, n, i, Cursor(ie, i), c') && Cursor(ie, i) < length
    ensures Accepts(kind, ie[Cursor(ie, i)]) ==>
      i < n && Walking(kind, ie, length, c, n, i + 1, Next(ie, Cursor(ie, i)), Turn(ie, Cursor(ie, i), c'))
    ensures !Accepts(kind, ie[Cursor(ie, i)]) ==> Walked(kind, ie, length, c, IeIncorrect, c')
  {
    assert Over(kind, ie, length, i) <==> !Accepts(kind, ie[Cursor(ie, i)]);
    assert i < n ==> !Over(kind, ie, length, i);
  }

  lemma FourOctets(b1: uint8, b2: uint8, b3: uint8, b4: uint8)
    ensures Or(Or(Or(Shl(b1, 24), Shl(b2, 16)), Shl(b3, 8)), b4) == BigEndian([b1, b2, b3, b4])
  {
    Pow2Of8();
    Pow2Sum(8, 8);
    Pow2Sum(8, 16);
    TwoOctets(b1, b2);
    assert [b1, b2, b3][..2] == [b1, b2] && [b1, b2, b3, b4][..3] == [b1, b2, b3];
    var m := BigEndian([b1, b2]);
    var m3 := BigEndian([b1, b2, b3]);
    OctetFits(b2, 16);
    OrIsPlus(b1, 24, Shl(b2, 16));
    assert Or(Shl(b1, 24), Shl(b2, 16)) == m * Pow2(16);
    OctetFits(b3, 8);
    OrIsPlus(m, 16, Shl(b3, 8));
    assert Or(Shl(m, 16), Shl(b3, 8)) == m3 * Pow2(8);
    OrIsPlus(m3, 8, b4);
  }

  // ---------------------------------------------------------------- when the walk ends

  /** Where the walk has been before member `k`. */
  ghost function Visited(ie: Memory, k: nat): set<int> {
    if k == 0 then {} else Visited(ie, k - 1) + {Cursor(ie, k - 1)}
  }

  lemma {:induction false} VisitedEarlier(ie: Memory, k: nat, x: int) returns (j: nat)
    requires x in Visited(ie, k)
    ensures j < k && Cursor(ie, j) == x
  {
    if x == Cursor(ie, k - 1) { j := k - 1; } else { j := VisitedEarlier(ie, k - 1, x); }
  }

  lemma {:induction false} VisitedInside(kind: Kind, ie: Memory, length: uint8, k: nat)
    requires forall j :: 0 <= j < k ==> !Over(kind, ie, length, j)
    ensures Visited(ie, k) <= Below(length)
  {
    if k > 0 {
      VisitedInside(kind, ie, length, k - 1);
      assert !Over(kind, ie, length, k - 1);
    }
  }

  /** Pigeonhole: among more cursors below `length` than there are offsets, two coincide. */
  lemma {:induction false} CursorRepeats(ie: Memory, k: nat) returns (i: nat, j: nat)
    requires |Visited(ie, k)| < k
    ensures i < j < k && Cursor(ie, i) == Cursor(ie, j)
  {
    if Cursor(ie, k - 1) in Visited(ie, k - 1) {
      i := VisitedEarlier(ie, k - 1, Cursor(ie, k - 1));
      j := k - 1;
    } else {
      i, j := CursorRepeats(ie, k - 1);
    }
  }

  /** After a repeat the walk only revisits old offsets. */
  lemma {:induction false} RevisitsOnly(ie: Memory, i: nat, j: nat, m: nat) returns (m': nat)
    requires i < j && Cursor(ie, i) == Cursor(ie, j)
    ensures m' < j && Cursor(ie, m') == Cursor(ie, m)
  {
    if m == 0 {
      m' := 0;
    } else {
      m' := RevisitsOnly(ie, i, j, m - 1);
      m' := if m' + 1 == j then i else m' + 1;
    }
  }

  ghost predicate NotOverUpTo(kind: Kind, ie: Memory, length: uint8, k: nat) {
    forall j :: 0 <= j <= k ==> !Over(kind, ie, length, j)
  }

  /** A repeat before any stop: the walk has no end. */
  lemma RepeatNeverEnds(kind: Kind, ie: Memory, length: uint8, i: nat, j: nat)
    requires i < j && Cursor(ie, i) == Cursor(ie, j) && NotOverUpTo(kind, ie, length, j)
    ensures !Stops(kind, ie, length)
  {
    forall m: nat ensures !Over(kind, ie, length, m) {
      var m' := RevisitsOnly(ie, i, j, m);
      assert Over(kind, ie, length, m) == Over(kind, ie, length, m');
    }
  }

  /** The walk ends exactly when it ends within ieLength members; otherwise its cursor cycles for
      ever below ieLength. */
  lemma WalkEndsIff(kind: Kind, ie: Memory, length: uint8)
    ensures Stops(kind, ie, length) <==> exists k :: 0 <= k <= length && Over(kind, ie, length, k)
  {
    if NotOverUpTo(kind, ie, length, length) {
      VisitedInside(kind, ie, length, length + 1);
      SubsetSize(Visited(ie, length + 1), Below(length));
      var i, j := CursorRepeats(ie, length + 1);
      RepeatNeverEnds(kind, ie, length, i, j);
    }
  }

  /** It never ends exactly when an offset repeats before any stop. */
  lemma NeverEndsIffRepeats(kind: Kind, ie: Memory, length: uint8)
    ensures !Stops(kind, ie, length) <==>
            exists i, j :: 0 <= i < j <= length && Cursor(ie, i) == Cursor(ie, j) && NotOverUpTo(kind, ie, length, j)
  {
    if i, j :| 0 <= i < j <= length && Cursor(ie, i) == Cursor(ie, j) && NotOverUpTo(kind, ie, length, j) {
      RepeatNeverEnds(kind, ie, length, i, j);
    }
    if !Stops(kind, ie, length) {
      forall k | 0 <= k <= length ensures !Over(kind, ie, length, k) {}
      VisitedInside(kind, ie, length, length + 1);
      SubsetSize(Visited(ie, length + 1), Below(length));
      var i, j := CursorRepeats(ie, length + 1);
      assert NotOverUpTo(kind, ie, length, j);
    }
  }

  /** The member at the cursor does not carry it past 255. */
  predicate NoWrap(ie: Memory, k: nat) {
    Cursor(ie, k) + LengthAt(ie, Cursor(ie, k)) + HEADER < TWO_8
  }

  lemma {:induction false} UnwrappedGrows(kind: Kind, ie: Memory, length: uint8, k: nat)
    requires forall j :: 0 <= j < k ==> NoWrap(ie, j)
    ensures Cursor(ie, k) >= HEADER * k
  {
    if k > 0 {
      UnwrappedGrows(kind, ie, length, k - 1);
      assert NoWrap(ie, k - 1);
    }
  }

  /** The guard a caller can test member by member: when no member before the stop carries the cursor
      past 255, the walk ends. A walk without end has a member that wraps it. */
  lemma UnwrappedWalkEnds(kind: Kind, ie: Memory, length: uint8)
    requires forall k: nat :: NotOverUpTo(kind, ie, length, k) ==> NoWrap(ie, k)
    ensures Stops(kind, ie, length)
  {
    if !Stops(kind, ie, length) {
      forall j | 0 <= j < TWO_8 ensures NoWrap(ie, j) {
        assert NotOverUpTo(kind, ie, length, j);
      }
      UnwrappedGrows(kind, ie, length, TWO_8);
      assert false;
    }
  }

  lemma Standstill(read: uint8, l: nat)
    requires l % TWO_8 == TWO_8 - HEADER
    ensures (read + l + HEADER) % TWO_8 == read
  {}

  /** An accepted member whose length is 252 modulo 256 leaves the cursor where it is. */
  lemma StandstillNeverEnds(kind: Kind, ie: Memory, length: uint8, k: nat)
    requires NotOverUpTo(kind, ie, length, k)
    requires LengthAt(ie, Cursor(ie, k)) % TWO_8 == TWO_8 - HEADER
    ensures !Stops(kind, ie, length)
  {
    Standstill(Cursor(ie, k), LengthAt(ie, Cursor(ie, k)));
    assert Cursor(ie, k + 1) == Cursor(ie, k);
    assert !Over(kind, ie, length, k + 1) by { assert !Over(kind, ie, length, k); }
    RepeatNeverEnds(kind, ie, length, k, k + 1);
  }

  /** So the walk need not end: one EBI that claims 252 octets is enough. */
  lemma EndlessWalk() returns (ie: Memory)
    ensures !Stops(Created, ie, 5)
  {
    ie := [EBI, 0, 252, 0, 5] + Zeros(ROOM);
    assert Cursor(ie, 0) == 0;
    StandstillNeverEnds(Created, ie, 5, 0);
  }

  // ---------------------------------------------------------------- well-framed members

  /** A member as the sender framed it. */
  datatype Tlv = Tlv(t: uint8, i: uint8, v: seq<uint8>)

  type Tlvs = seq<Tlv>

  ghost predicate AllComplete(ms: Tlvs) {
    forall m :: m in ms ==> Complete(m.t, m.v)
  }

  function Frame(m: Tlv): (s: seq<uint8>)
    requires |m.v| < TWO_16
    ensures |s| == HEADER + |m.v|
  {
    [m.t, (|m.v| / TWO_8) as uint8, (|m.v| % TWO_8) as uint8, m.i] + m.v
  }

  ghost predicate AllShort(ms: Tlvs) {
    forall m :: m in ms ==> |m.v| < TWO_16
  }

  function Flatten(ms: Tlvs): seq<uint8>
    requires AllShort(ms)
  {
    if ms == [] then [] else Flatten(ms[..|ms| - 1]) + Frame(ms[|ms| - 1])
  }

  function Fold(c: Context, ms: Tlvs): Context
    requires AllComplete(ms)
  {
    if ms == [] then c else Apply(Fold(c, ms[..|ms| - 1]), ms[|ms| - 1].t, ms[|ms| - 1].v)
  }

  /** How many members the context holds before the first it does not. */
  function Accepted(kind: Kind, ms: Tlvs): (n: nat)
    ensures n <= |ms| && (forall j :: 0 <= j < n ==> Accepts(kind, ms[j].t))
    ensures n < |ms| ==> !Accepts(kind, ms[n].t)
  {
    if ms != [] && Accepts(kind, ms[0].t) then 1 + Accepted(kind, ms[1..]) else 0
  }

  /** The octets of the first `k` members start the memory. */
  ghost predicate Framed(ie: Memory, ms: Tlvs) {
    AllShort(ms) && AllComplete(ms) && |Flatten(ms)| < TWO_8 && Flatten(ms) <= ie
  }

  lemma FrameAt(ie: Memory, x: seq<uint8>, m: Tlv)
    requires |m.v| < TWO_16 && |x| < TWO_8 && x + Frame(m) <= ie
    ensures x <= ie && m.t == ie[|x|] && LengthAt(ie, |x|) == |m.v| && m.v <= ie[|x| + HEADER..]
  {
    var f := Frame(m);
    assert ie[..|x|] == x;
    assert forall k :: 0 <= k < |f| ==> ie[|x| + k] == f[k];
    assert ie[|x| + HEADER..][..|m.v|] == m.v;
    assert f[1] as int * TWO_8 + f[2] == |m.v|;
  }

  lemma FramedPrefix(ie: Memory, ms: Tlvs)
    requires Framed(ie, ms) && ms != []
    ensures var n := |ms| - 1;
      && Framed(ie, ms[..n]) && |Flatten(ms)| == |Flatten(ms[..n])| + HEADER + |ms[n].v|
      && var read := |Flatten(ms[..n])|;
      && ie[read] == ms[n].t && LengthAt(ie, read) == |ms[n].v|
      && ms[n].v <= ie[read + HEADER..]
  {
    var n := |ms| - 1;
    forall m | m in ms[..n] ensures |m.v| < TWO_16 && Complete(m.t, m.v) { assert m in ms; }
    assert ms[n] in ms;
    FrameAt(ie, Flatten(ms[..n]), ms[n]);
  }

  lemma SameValue(ie: Memory, c: Context, read: uint8, m: Tlv)
    requires Complete(m.t, m.v) && m.v <= ie[read + HEADER..]
    ensures Complete(m.t, ValueAt(ie, read))
    ensures Apply(c, m.t, ValueAt(ie, read)) == Apply(c, m.t, m.v)
  {
    var w := ValueAt(ie, read);
    var all := ie[read + HEADER..];
    assert all == w + all[25..];
    assert all == m.v + all[|m.v|..];
    ApplyIgnoresRest(c, m.t, m.v, all[|m.v|..]);
    ApplyIgnoresRest(c, m.t, w, all[25..]);
  }

  lemma NextFramed(ie: Memory, c: Context, k: nat, m: Tlv)
    requires Complete(m.t, m.v)
    requires var read := Cursor(ie, k);
      ie[read] == m.t && LengthAt(ie, read) == |m.v| && m.v <= ie[read + HEADER..] && read + HEADER + |m.v| < TWO_8
    ensures Cursor(ie, k + 1) == Cursor(ie, k) + HEADER + |m.v|
    ensures ContextAfter(ie, c, k + 1) == Apply(ContextAfter(ie, c, k), m.t, m.v)
  {
    SameValue(ie, ContextAfter(ie, c, k), Cursor(ie, k), m);
  }

  /** Over framed members the cursor never wraps: after all of them it stands at their end, and the
      context is their left fold. */
  lemma {:induction false} FramedCursor(ie: Memory, c: Context, ms: Tlvs)
    requires Framed(ie, ms)
    ensures Cursor(ie, |ms|) == |Flatten(ms)| && ContextAfter(ie, c, |ms|) == Fold(c, ms)
  {
    if ms != [] {
      var n := |ms| - 1;
      FramedPrefix(ie, ms);
      FramedCursor(ie, c, ms[..n]);
      assert ms[n] in ms;
      NextFramed(ie, c, n, ms[n]);
    }
  }

  /** Every prefix of framed members is framed, and shorter than the members after it. */
  lemma {:induction false} FramedPrefixes(ie: Memory, ms: Tlvs, k: nat)
    requires Framed(ie, ms) && k <= |ms|
    ensures Framed(ie, ms[..k])
    ensures k < |ms| ==> |Flatten(ms[..k])| < |Flatten(ms)| && ie[|Flatten(ms[..k])|] == ms[k].t
  {
    if k < |ms| {
      var n := |ms| - 1;
      FramedPrefix(ie, ms);
      assert ms[..n][..k] == ms[..k];
      FramedPrefixes(ie, ms[..n], k);
      if k < n {
        assert ms[..n][k] == ms[k];
        assert |Flatten(ms[..n])| < |Flatten(ms)|;
      }
    } else {
      assert ms[..k] == ms;
    }
  }

  lemma FramedTurn(kind: Kind, ie: Memory, c: Context, ms: Tlvs, k: nat)
    requires Framed(ie, ms) && k < |ms|
    ensures Over(kind, ie, |Flatten(ms)|, k) <==> !Accepts(kind, ms[k].t)
    ensures Cursor(ie, k) < |Flatten(ms)|
  {
    FramedPrefixes(ie, ms, k);
    FramedCursor(ie, c, ms[..k]);
  }

  /** The walk over framed members that fill the IE: it takes the members before the first one the
      context does not hold, and stops at the end or at that member. */
  lemma FramedWalkStops(kind: Kind, ie: Memory, c: Context, ms: Tlvs)
    requires Framed(ie, ms)
    ensures var n := Accepted(kind, ms);
      && AllComplete(ms[..n]) && StopsAt(kind, ie, |Flatten(ms)|, n)
      && ContextAfter(ie, c, n) == Fold(c, ms[..n])
      && (Cursor(ie, n) >= |Flatten(ms)| <==> n == |ms|)
  {
    var n := Accepted(kind, ms);
    FramedPrefixes(ie, ms, n);
    FramedCursor(ie, c, ms[..n]);
    if n < |ms| {
      FramedTurn(kind, ie, c, ms, n);
    } else {
      assert ms[..n] == ms;
    }
    forall k | 0 <= k < n ensures !Over(kind, ie, |Flatten(ms)|, k) {
      FramedTurn(kind, ie, c, ms, k);
      assert Accepts(kind, ms[k].t);
    }
  }

  /** Framed members satisfy what the walk needs to end. */
  lemma FramedWalkEnds(kind: Kind, ie: Memory, c: Context, ms: Tlvs)
    requires Framed(ie, ms)
    ensures Stops(kind, ie, |Flatten(ms)|)
  {
    FramedWalkStops(kind, ie, c, ms);
    assert Over(kind, ie, |Flatten(ms)|, Accepted(kind, ms));
  }

  lemma StopIsUnique(kind: Kind, ie: Memory, length: uint8, j: nat, k: nat)
    requires StopsAt(kind, ie, length, j) && StopsAt(kind, ie, length, k)
    ensures j == k
  {
    assert Over(kind, ie, length, j) && Over(kind, ie, length, k);
  }

  /** Every outcome of the walk over framed members: the left fold of those before the first
      unexpected type, which is an error exactly when there is one. */
  lemma FramedWalkIsFold(kind: Kind, ie: Memory, c: Context, ms: Tlvs, rc: Rc, c': Context)
    requires Framed(ie, ms) && Walked(kind, ie, |Flatten(ms)|, c, rc, c')
    ensures var n := Accepted(kind, ms); AllComplete(ms[..n]) && c' == Fold(c, ms[..n])
    ensures rc == NwOk <==> forall m :: m in ms ==> m.t in HeldTypes(kind)
  {
    var n := Accepted(kind, ms);
    FramedWalkStops(kind, ie, c, ms);
    var k: nat :| StopsAt(kind, ie, |Flatten(ms)|, k) && c' == ContextAfter(ie, c, k)
                  && (rc == NwOk <==> Cursor(ie, k) >= |Flatten(ms)|);
    StopIsUnique(kind, ie, |Flatten(ms)|, k, n);
    AllAccepted(kind, ms);
  }

  function HeldTypes(kind: Kind): set<int> {
    match kind
    case ToCreate => {73, 80}
    case ToModify => {73, 87}
    case Created => {73, 87, 2}
  }

  lemma AllAccepted(kind: Kind, ms: Tlvs)
    ensures Accepted(kind, ms) == |ms| <==> forall m :: m in ms ==> m.t in HeldTypes(kind)
  {
    var n := Accepted(kind, ms);
    if n < |ms| {
      assert ms[n] in ms;
    } else {
      forall m | m in ms ensures m.t in HeldTypes(kind) {
        var j :| 0 <= j < |ms| && ms[j] == m;
        assert Accepts(kind, ms[j].t);
      }
    }
  }

  lemma FramedStep(ie: Memory, ms: Tlvs, k: nat)
    requires Framed(ie, ms) && k < |ms|
    ensures Cursor(ie, k + 1) >= Cursor(ie, k) + HEADER
  {
    FramedPrefixes(ie, ms, k + 1);
    var next := ms[..k + 1];
    assert next[..k] == ms[..k];
    FramedPrefix(ie, next);
    assert next[k] in next;
    var c := Context(0, 0, Fteid(false, false, 0, 0, [], []));
    FramedCursor(ie, c, ms[..k]);
    NextFramed(ie, c, k, next[k]);
  }

  /** The cursor moves strictly forward from member to member. */
  lemma {:induction false} FramedCursorGrows(ie: Memory, ms: Tlvs, j: nat, k: nat)
    requires Framed(ie, ms) && j < k <= |ms|
    ensures Cursor(ie, j) + HEADER <= Cursor(ie, k)
  {
    FramedStep(ie, ms, k - 1);
    if j < k - 1 { FramedCursorGrows(ie, ms, j, k - 1); }
  }

  // ---------------------------------------------------------------- the last occurrence wins

  predicate IsLast(ms: Tlvs, t: uint8, p: nat) {
    p < |ms| && ms[p].t == t && forall j :: p < j < |ms| ==> ms[j].t != t
  }

  /** An F-TEID whose first octet announces an IPv4 address, or an IPv6 address. */
  predicate CarriesIpv4(m: Tlv) {
    m.t == 87 && m.v != [] && m.v[0] / 128 == 1
  }

  predicate CarriesIpv6(m: Tlv) {
    m.t == 87 && m.v != [] && m.v[0] / 64 % 2 == 1
  }

  predicate IsLastIpv4(ms: Tlvs, p: nat) {
    p < |ms| && CarriesIpv4(ms[p]) && forall j :: p < j < |ms| ==> !CarriesIpv4(ms[j])
  }

  predicate IsLastIpv6(ms: Tlvs, p: nat) {
    p < |ms| && CarriesIpv6(ms[p]) && forall j :: p < j < |ms| ==> !CarriesIpv6(ms[j])
  }

  /** The last EBI (type 73), cause (2) and F-TEID (87) win. */
  lemma {:induction false} FoldOfLast(c: Context, ms: Tlvs, t: uint8, p: nat)
    requires AllComplete(ms) && IsLast(ms, t, p)
    ensures t == 73 ==> |ms[p].v| >= 1 && Fold(c, ms).ebi == ms[p].v[0] % 16
    ensures t == 2 ==> |ms[p].v| >= 1 && Fold(c, ms).cause == ms[p].v[0]
    ensures t == 87 ==> |ms[p].v| >= 5 && var f := Fold(c, ms).fteid;
      && f.teid == BigEndian(ms[p].v[1..5]) && f.interfaceType == ms[p].v[0] % 32
      && f.ipv4 == (ms[p].v[0] / 128 == 1) && f.ipv6 == (ms[p].v[0] / 64 % 2 == 1)
  {
    var n := |ms| - 1;
    assert ms[p] in ms && ms[n] in ms;
    if p < n {
      FoldOfLast(c, ms[..n], t, p);
    }
  }

  /** A field whose member does not occur keeps its value. */
  lemma {:induction false} FoldOfAbsent(c: Context, ms: Tlvs)
    requires AllComplete(ms)
    ensures (forall m :: m in ms ==> m.t != 73) ==> Fold(c, ms).ebi == c.ebi
    ensures (forall m :: m in ms ==> m.t != 2) ==> Fold(c, ms).cause == c.cause
    ensures (forall m :: m in ms ==> m.t != 87) ==> Fold(c, ms).fteid == c.fteid
    ensures (forall m :: m in ms ==> !CarriesIpv4(m)) ==> Fold(c, ms).fteid.ipv4Address == c.fteid.ipv4Address
    ensures (forall m :: m in ms ==> !CarriesIpv6(m)) ==> Fold(c, ms).fteid.ipv6Address == c.fteid.ipv6Address
  {
    if ms != [] {
      var n := |ms| - 1;
      assert ms[n] in ms;
      FoldOfAbsent(c, ms[..n]);
    }
  }

  /** The stored IPv4 address is that of the last F-TEID that announced one, which need not be the
      last F-TEID. */
  lemma {:induction false} FoldOfLastIpv4(c: Context, ms: Tlvs, p: nat)
    requires AllComplete(ms) && IsLastIpv4(ms, p)
    ensures |ms[p].v| >= 9 && Fold(c, ms).fteid.ipv4Address == ms[p].v[5..9]
  {
    var n := |ms| - 1;
    assert ms[p] in ms && ms[n] in ms;
    if p < n {
      FoldOfLastIpv4(c, ms[..n], p);
      assert !CarriesIpv4(ms[n]);
    }
  }

  /** So with the IPv6 address, which stands behind the IPv4 address when both are announced. */
  lemma {:induction false} FoldOfLastIpv6(c: Context, ms: Tlvs, p: nat)
    requires AllComplete(ms) && IsLastIpv6(ms, p)
    ensures var v := ms[p].v;
      if v[0] / 128 == 1 then |v| >= 25 && Fold(c, ms).fteid.ipv6Address == v[9..25]
      else |v| >= 21 && Fold(c, ms).fteid.ipv6Address == v[5..21]
  {
    var n := |ms| - 1;
    assert ms[p] in ms && ms[n] in ms;
    if p < n {
      FoldOfLastIpv6(c, ms[..n], p);
      assert !CarriesIpv6(ms[n]);
    }
  }
}
