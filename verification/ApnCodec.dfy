/**
 The APN information element (3GPP TS 29.274 section 8.6, 3GPP TS 23.003 clause 9.1): dotted
 text on one side, length-prefixed labels on the other.
 */
module ApnCodec {
  import opened Common

  const DOT: uint8 := 46
  const NUL: uint8 := 0
  const APN_MAX_LENGTH: int := 100

  type Bytes = seq<uint8>

  // ---------------------------------------------------------------- text and labels

  /** The labels of a dotted text, empty ones included. */
  function Split(s: Bytes): (ls: seq<Bytes>)
    ensures |ls| > 0
  {
    if s == [] then [[]]
    else
      var n := |s| - 1;
      var ls := Split(s[..n]);
      if s[n] == DOT then ls + [[]] else ls[..|ls| - 1] + [ls[|ls| - 1] + [s[n]]]
  }

  function Join(ls: seq<Bytes>): Bytes
    requires |ls| > 0
  {
    var n := |ls| - 1;
    if n == 0 then ls[0] else Join(ls[..n]) + [DOT] + ls[n]
  }

  /** A label that may appear in a text: no dot, no NUL. */
  predicate Clean(l: Bytes) {
    DOT !in l && NUL !in l
  }

  ghost predicate AllClean(ls: seq<Bytes>) {
    forall l :: l in ls ==> Clean(l)
  }

  lemma SplitAppend(s: Bytes, c: uint8)
    ensures Split(s + [c]) == if c == DOT then Split(s) + [[]]
                              else Split(s)[..|Split(s)| - 1] + [Split(s)[|Split(s)| - 1] + [c]]
  {
    assert (s + [c])[..|s|] == s;
  }

  lemma {:induction false} SplitAppendLabel(s: Bytes, l: Bytes)
    requires DOT !in l
    ensures Split(s + [DOT] + l) == Split(s) + [l]
  {
    if l == [] {
      SplitAppend(s, DOT);
      assert s + [DOT] + l == s + [DOT];
    } else {
      var n := |l| - 1;
      var head, ls := s + [DOT] + l[..n], Split(s);
      SplitAppendLabel(s, l[..n]);
      assert l[..n] + [l[n]] == l;
      assert s + [DOT] + l == head + [l[n]];
      SplitAppend(head, l[n]);
      LastGrows(ls, l[..n], l[n]);
    }
  }

  lemma LastGrows(ls: seq<Bytes>, l: Bytes, c: uint8)
    ensures var ls' := ls + [l]; ls'[..|ls'| - 1] + [ls'[|ls'| - 1] + [c]] == ls + [l + [c]]
  {}

  lemma {:induction false} SplitOneLabel(l: Bytes)
    requires DOT !in l
    ensures Split(l) == [l]
  {
    if l != [] {
      var n := |l| - 1;
      SplitOneLabel(l[..n]);
      assert l[..n] + [l[n]] == l;
    }
  }

  /** What every label of a text is like. */
  ghost predicate LabelOf(l: Bytes, s: Bytes) {
    DOT !in l && (NUL in l ==> NUL in s) && |l| <= |s|
  }

  lemma {:induction false} LabelsOfSplit(s: Bytes)
    ensures forall l :: l in Split(s) ==> LabelOf(l, s)
  {
    if s != [] {
      var n := |s| - 1;
      LabelsOfSplit(s[..n]);
      var ls := Split(s[..n]);
      assert LabelOf(ls[|ls| - 1], s[..n]);
      forall l | l in Split(s) ensures LabelOf(l, s) {
        assert l in ls || l == [] || (l == ls[|ls| - 1] + [s[n]] && s[n] != DOT);
        assert l in ls ==> LabelOf(l, s[..n]);
      }
    }
  }

  lemma JoinMore(ls: seq<Bytes>, l: Bytes)
    requires |ls| > 0
    ensures Join(ls + [l]) == Join(ls) + [DOT] + l
  {
    assert (ls + [l])[..|ls|] == ls;
  }

  lemma JoinLonger(ls: seq<Bytes>, l: Bytes, c: uint8)
    ensures Join(ls + [l + [c]]) == Join(ls + [l]) + [c]
  {
    if ls == [] {
      assert ls + [l] == [l] && ls + [l + [c]] == [l + [c]];
    } else {
      JoinMore(ls, l);
      JoinMore(ls, l + [c]);
    }
  }

  /** Splitting and joining are inverse: every text is the join of its labels, which hold no dot,
      and every list of labels without dots is the split of its join. */
  lemma {:induction false} JoinOfSplit(s: Bytes)
    ensures Join(Split(s)) == s
  {
    if s != [] {
      var n := |s| - 1;
      JoinOfSplit(s[..n]);
      var ls := Split(s[..n]);
      assert s == s[..n] + [s[n]];
      if s[n] == DOT {
        JoinMore(ls, []);
      } else {
        var m := |ls| - 1;
        JoinLonger(ls[..m], ls[m], s[n]);
        assert ls[..m] + [ls[m]] == ls;
      }
    }
  }

  lemma {:induction false} SplitOfJoin(ls: seq<Bytes>)
    requires |ls| > 0 && forall l :: l in ls ==> DOT !in l
    ensures Split(Join(ls)) == ls
  {
    var n := |ls| - 1;
    if n == 0 {
      SplitOneLabel(ls[0]);
    } else {
      SplitOfJoin(ls[..n]);
      SplitAppendLabel(Join(ls[..n]), ls[n]);
    }
  }

  // ---------------------------------------------------------------- the octets

  ghost predicate Short(ls: seq<Bytes>) {
    forall l :: l in ls ==> |l| < TWO_8
  }

  /** Each label preceded by its length. */
  function EncodeLabels(ls: seq<Bytes>): Bytes
    requires Short(ls)
  {
    if ls == [] then []
    else
      var n := |ls| - 1;
      EncodeLabels(ls[..n]) + [|ls[n]|] + ls[n]
  }

  lemma SplitIsShort(s: Bytes)
    requires |s| < TWO_8
    ensures Short(Split(s))
  {
    LabelsOfSplit(s);
    forall l | l in Split(s) ensures |l| < TWO_8 { assert LabelOf(l, s); }
  }

  lemma SplitIsClean(s: Bytes)
    requires NUL !in s
    ensures AllClean(Split(s))
  {
    LabelsOfSplit(s);
    forall l | l in Split(s) ensures Clean(l) { assert LabelOf(l, s); }
  }

  function Encode(s: Bytes): Bytes
    requires |s| < TWO_8
  {
    SplitIsShort(s);
    EncodeLabels(Split(s))
  }

  /** The decoder's buffer and its count of octets left in the current label. */
  datatype Decoding = Decoding(text: Bytes, left: nat)

  function DecodeFrom(ie: Bytes): Decoding
    requires ie != []
  {
    var n := |ie| - 1;
    if n == 0 then Decoding([], ie[0])
    else
      var d := DecodeFrom(ie[..n]);
      if d.left > 0 then Decoding(d.text + [ie[n]], d.left - 1) else Decoding(d.text + [DOT], ie[n])
  }

  function Decode(ie: Bytes): Bytes {
    if ie == [] then [] else DecodeFrom(ie).text
  }

  /** The text a C reader sees: everything before the first NUL. */
  function CString(s: Bytes): Bytes {
    if s == [] || s[0] == NUL then [] else [s[0]] + CString(s[1..])
  }

  /** The lengths partition the octets into labels that may appear in a text. */
  ghost predicate WellFormed(ie: Bytes) {
    && ie != [] && ie[0] < |ie| && Clean(ie[1..ie[0] + 1])
    && (|ie| - 1 == ie[0] || WellFormed(ie[ie[0] + 1..]))
  }

  // ---------------------------------------------------------------- the loops

  /** The state of the encoding loop after text `p`: finished labels up to `lastSize`, where the
      current label's length is still missing, and `wordLength` octets of it after that. */
  ghost predicate Filling(value: Bytes, p: Bytes, lastSize: nat, wordLength: nat) {
    && |p| < |value| && lastSize + wordLength == |p| && Short(Split(p))
    && var ls := Split(p);
    && value[..lastSize] == EncodeLabels(ls[..|ls| - 1])
    && value[lastSize + 1..|p| + 1] == ls[|ls| - 1]
  }

  lemma WriteBack(value: Bytes, i: nat, n: nat, x: uint8)
    requires i < n <= |value|
    ensures value[i := x][..n] == value[..i] + [x] + value[i + 1..n]
  {}

  lemma FillingEnds(value: Bytes, p: Bytes, lastSize: nat, wordLength: uint8)
    requires Filling(value, p, lastSize, wordLength)
    ensures value[lastSize := wordLength][..|p| + 1] == EncodeLabels(Split(p))
  {
    var ls := Split(p);
    assert wordLength == |ls[|ls| - 1]|;
    WriteBack(value, lastSize, |p| + 1, wordLength);
  }

  lemma FillingDot(value: Bytes, p: Bytes, lastSize: nat, wordLength: uint8)
    requires Filling(value, p, lastSize, wordLength) && |p| + 1 < |value|
    ensures Filling(value[lastSize := wordLength], p + [DOT], |p| + 1, 0)
  {
    FillingEnds(value, p, lastSize, wordLength);
    SplitAppend(p, DOT);
    assert (Split(p) + [[]])[..|Split(p)|] == Split(p);
  }

  lemma FillingOctet(value: Bytes, p: Bytes, lastSize: nat, wordLength: nat, c: uint8)
    requires Filling(value, p, lastSize, wordLength) && |p| + 1 < |value| && c != DOT && |p| + 1 < TWO_8
    ensures Filling(value[|p| + 1 := c], p + [c], lastSize, wordLength + 1)
  {
    SplitAppend(p, c);
    SplitIsShort(p + [c]);
    var n := |Split(p)| - 1;
    var head, last := Split(p)[..n], Split(p)[n];
    assert (head + [last + [c]])[..n] == head;
    Push(value, lastSize, |p| + 1, c);
  }

  lemma Push(value: Bytes, i: nat, n: nat, c: uint8)
    requires i < n < |value|
    ensures value[n := c][..i] == value[..i] && value[n := c][i + 1..n + 1] == value[i + 1..n] + [c]
  {}

  /** The same after `offset` octets of the text. */
  ghost predicate Copied(value: Bytes, apn: Bytes, offset: nat, lastSize: nat, wordLength: nat) {
    && offset <= |apn| && |value| == |apn| + 1 && lastSize <= offset && wordLength <= offset
    && Filling(value, apn[..offset], lastSize, wordLength)
  }

  lemma FillingNext(value: Bytes, apn: Bytes, offset: nat, lastSize: nat, wordLength: uint8)
    requires offset < |apn| < TWO_8 && Copied(value, apn, offset, lastSize, wordLength)
    ensures if apn[offset] == DOT then Copied(value[lastSize := wordLength], apn, offset + 1, offset + 1, 0)
            else Copied(value[offset + 1 := apn[offset]], apn, offset + 1, lastSize, wordLength + 1)
  {
    var p, q := apn[..offset], apn[..offset + 1];
    assert q == p + [apn[offset]];
    if apn[offset] == DOT {
      FillingDot(value, p, lastSize, wordLength);
      assert Filling(value[lastSize := wordLength], q, offset + 1, 0);
    } else {
      FillingOctet(value, p, lastSize, wordLength, apn[offset]);
      assert Filling(value[offset + 1 := apn[offset]], q, lastSize, wordLength + 1);
    }
  }

  lemma FillingStarts(value: Bytes, apn: Bytes)
    requires |value| == |apn| + 1
    ensures Copied(value, apn, 0, 0, 0)
  {
    assert apn[..0] == [] && value[..0] == [] && value[1..1] == [];
    assert Split([])[..0] == [];
  }

  lemma FillingIsEncoded(value: Bytes, apn: Bytes, lastSize: nat, wordLength: uint8)
    requires |apn| < TWO_8 && Copied(value, apn, |apn|, lastSize, wordLength)
    ensures lastSize <= |apn| && value[lastSize := wordLength] == Encode(apn)
  {
    assert apn[..|apn|] == apn;
    FillingEnds(value, apn, lastSize, wordLength);
    var v := value[lastSize := wordLength];
    assert v[..|apn| + 1] == v;
  }

  /** s11_apn_ie_set: copies the text one octet further, and writes each label's length back into
      the slot before it once the label has ended. */
  method EncodeApn(apn: Bytes) returns (value: array<uint8>)
    requires NUL !in apn && |apn| < TWO_8
    ensures fresh(value) && value[..] == Encode(apn)
  {
    value := new uint8[|apn| + 1](_ => 0);
    var offset: nat, wordLength: uint8, lastSize: nat := 0, 0, 0;
    FillingStarts(value[..], apn);
    while offset < |apn|
      invariant Copied(value[..], apn, offset, lastSize, wordLength)
    {
      ghost var v := value[..];
      FillingNext(v, apn, offset, lastSize, wordLength);
      if apn[offset] == DOT {
        value[lastSize] := wordLength;
        assert value[..] == v[lastSize := wordLength];
        wordLength := 0;
        lastSize := offset + 1;
      } else {
        wordLength := wordLength + 1;
        value[offset + 1] := apn[offset];
        assert value[..] == v[offset + 1 := apn[offset]];
      }
      offset := offset + 1;
    }
    ghost var v := value[..];
    FillingIsEncoded(v, apn, lastSize, wordLength);
    value[lastSize] := wordLength;
    assert value[..] == v[lastSize := wordLength];
  }

  /** s11_apn_ie_get: writes the text and its NUL into the caller's buffer. */
  method DecodeApn(ie: Bytes, apn: array<uint8>)
    requires |ie| <= APN_MAX_LENGTH && apn.Length == APN_MAX_LENGTH + 1
    modifies apn
    ensures var text := Decode(ie);
      |text| < apn.Length && apn[..|text|] == text && apn[|text|] == NUL
    ensures CString(apn[..]) == CString(Decode(ie))
  {
    var read := 1;
    var wordLength := if ie == [] then 0 else ie[0];
    while read < |ie|
      invariant 1 <= read && (ie != [] ==> read <= |ie| && DecodeFrom(ie[..read]) == Decoding(apn[..read - 1], wordLength))
      invariant ie == [] ==> read == 1
    {
      assert ie[..read + 1][..read] == ie[..read];
      if wordLength > 0 {
        apn[read - 1] := ie[read];
        wordLength := wordLength - 1;
      } else {
        wordLength := ie[read];
        apn[read - 1] := DOT;
      }
      assert apn[..read] == apn[..read - 1] + [apn[read - 1]];
      read := read + 1;
    }
    apn[read - 1] := NUL;
    assert ie != [] ==> ie[..read] == ie;
    assert apn[..] == apn[..read - 1] + [NUL] + apn[read..];
    CStringStops(apn[..read - 1], apn[read..]);
  }

  lemma {:induction false} CStringStops(s: Bytes, rest: Bytes)
    ensures CString(s + [NUL] + rest) == CString(s)
  {
    if s != [] && s[0] != NUL {
      assert (s + [NUL] + rest)[1..] == s[1..] + [NUL] + rest;
      CStringStops(s[1..], rest);
    }
  }

  lemma {:induction false} CStringOfClean(s: Bytes)
    ensures NUL !in CString(s) && |CString(s)| <= |s|
    ensures NUL !in s ==> CString(s) == s
  {
    if s != [] && s[0] != NUL {
      CStringOfClean(s[1..]);
      assert s == [s[0]] + s[1..];
    }
  }

  // ---------------------------------------------------------------- round trips

  lemma {:induction false} DecodeLabel(x: Bytes, l: Bytes)
    requires x != [] && DecodeFrom(x).left >= |l|
    ensures DecodeFrom(x + l) == Decoding(DecodeFrom(x).text + l, DecodeFrom(x).left - |l|)
  {
    if l == [] {
      assert x + l == x;
    } else {
      var n := |l| - 1;
      DecodeLabel(x, l[..n]);
      assert (x + l)[..|x| + n] == x + l[..n];
      assert l == l[..n] + [l[n]];
    }
  }

  lemma DecodeNextLabel(x: Bytes, text: Bytes, l: Bytes)
    requires x != [] && |l| < TWO_8 && DecodeFrom(x) == Decoding(text, 0)
    ensures DecodeFrom(x + [|l|] + l) == Decoding(text + [DOT] + l, 0)
  {
    var y := x + [|l|];
    assert y[..|x|] == x;
    assert DecodeFrom(y) == Decoding(text + [DOT], |l|);
    DecodeLabel(y, l);
  }

  lemma {:induction false} EncodedIsNonEmpty(ls: seq<Bytes>)
    requires Short(ls) && |ls| > 0
    ensures EncodeLabels(ls) != []
  {}

  /** Decoding length-prefixed labels yields their join, with no octets left over. */
  lemma {:induction false} DecodeEncodedLabels(ls: seq<Bytes>)
    requires Short(ls) && |ls| > 0
    ensures EncodeLabels(ls) != [] && DecodeFrom(EncodeLabels(ls)) == Decoding(Join(ls), 0)
  {
    var n := |ls| - 1;
    var l := ls[n];
    if n == 0 {
      assert EncodeLabels(ls) == [|l|] + l;
      DecodeLabel([|l|], l);
    } else {
      DecodeEncodedLabels(ls[..n]);
      DecodeNextLabel(EncodeLabels(ls[..n]), Join(ls[..n]), l);
    }
  }

  /** The decoder returns the text the encoder was given: for every NUL-free text whose encoding
      the decoder accepts. */
  lemma DecodeInvertsEncode(s: Bytes)
    requires NUL !in s && |s| < APN_MAX_LENGTH
    ensures |Encode(s)| <= APN_MAX_LENGTH && CString(Decode(Encode(s))) == s
  {
    SplitIsShort(s);
    DecodeEncodedLabels(Split(s));
    JoinOfSplit(s);
    CStringOfClean(s);
    DecodeLength(Encode(s));
  }

  lemma {:induction false} DecodeLength(ie: Bytes)
    requires ie != []
    ensures |DecodeFrom(ie).text| == |ie| - 1
  {
    if |ie| > 1 { DecodeLength(ie[..|ie| - 1]); }
  }

  lemma {:induction false} EncodeFirst(l: Bytes, ls: seq<Bytes>)
    requires Short([l] + ls)
    ensures Short(ls) && EncodeLabels([l] + ls) == [|l|] + l + EncodeLabels(ls)
  {
    forall k | k in ls ensures |k| < TWO_8 { assert k in [l] + ls; }
    if ls == [] {
      assert [l] + ls == [l];
      assert [l][..0] == [];
    } else {
      var n := |ls| - 1;
      assert ([l] + ls)[..|ls|] == [l] + ls[..n];
      EncodeFirst(l, ls[..n]);
    }
  }

  /** Encoding labels gives well-formed octets, and all well-formed octets arise that way. */
  lemma {:induction false} EncodedIsWellFormed(ls: seq<Bytes>)
    requires Short(ls) && |ls| > 0 && AllClean(ls)
    ensures WellFormed(EncodeLabels(ls))
  {
    var l, rest := ls[0], ls[1..];
    assert ls == [l] + rest;
    EncodeFirst(l, rest);
    var ie := EncodeLabels(ls);
    assert ie[1..|l| + 1] == l;
    assert ie[|l| + 1..] == EncodeLabels(rest);
    if rest != [] {
      EncodedIsWellFormed(rest);
      EncodedIsNonEmpty(rest);
    }
  }

  lemma {:induction false} WellFormedIsEncoded(ie: Bytes) returns (ls: seq<Bytes>)
    requires WellFormed(ie)
    ensures Short(ls) && |ls| > 0 && AllClean(ls) && EncodeLabels(ls) == ie
  {
    var l := ie[1..ie[0] + 1];
    if |ie| - 1 == ie[0] {
      ls := [l];
      EncodeFirst(l, []);
      assert [l] + [] == ls;
    } else {
      var rest := WellFormedIsEncoded(ie[ie[0] + 1..]);
      ls := [l] + rest;
      EncodeFirst(l, rest);
    }
  }

  /** Re-encoding what was decoded gives the octets back exactly when they are well-formed. */
  lemma ReencodeIff(ie: Bytes)
    requires 1 <= |ie| <= APN_MAX_LENGTH
    ensures |CString(Decode(ie))| < TWO_8
    ensures Encode(CString(Decode(ie))) == ie <==> WellFormed(ie)
  {
    DecodeLength(ie);
    var s := CString(Decode(ie));
    CStringOfClean(Decode(ie));
    SplitIsShort(s);
    SplitIsClean(s);
    if Encode(s) == ie {
      EncodedIsWellFormed(Split(s));
    }
    if WellFormed(ie) {
      var ls := WellFormedIsEncoded(ie);
      DecodeEncodedLabels(ls);
      JoinIsNulFree(ls);
      CStringOfClean(Join(ls));
      SplitOfJoin(ls);
    }
  }

  lemma {:induction false} JoinIsNulFree(ls: seq<Bytes>)
    requires |ls| > 0 && AllClean(ls)
    ensures NUL !in Join(ls)
  {
    var n := |ls| - 1;
    assert ls[n] in ls;
    if n > 0 {
      forall l | l in ls[..n] ensures Clean(l) { assert l in ls; }
      JoinIsNulFree(ls[..n]);
    }
  }

  /** So on texts of at most 99 octets and well-formed octets of at most 100 the codec is a
      bijection: different texts have different encodings, and each well-formed value is one. */
  lemma CodecIsBijective(s1: Bytes, s2: Bytes, ie: Bytes)
    requires NUL !in s1 && NUL !in s2 && |s1| < APN_MAX_LENGTH && |s2| < APN_MAX_LENGTH
    requires 1 <= |ie| <= APN_MAX_LENGTH
    ensures Encode(s1) == Encode(s2) ==> s1 == s2
    ensures WellFormed(Encode(s1))
    ensures WellFormed(ie) ==> exists s :: NUL !in s && |s| < APN_MAX_LENGTH && Encode(s) == ie
  {
    DecodeInvertsEncode(s1);
    DecodeInvertsEncode(s2);
    SplitIsShort(s1);
    SplitIsClean(s1);
    EncodedIsWellFormed(Split(s1));
    ReencodeIff(ie);
    DecodeLength(ie);
    CStringOfClean(Decode(ie));
  }

  // ---------------------------------------------------------------- position by position

  /** From position `k` of the text it is `n` octets to the next dot (46) or the end. */
  predicate IsLengthAt(s: Bytes, k: nat, n: nat) {
    k + n <= |s| && (k + n == |s| || s[k + n] == 46) && forall j :: k <= j < k + n ==> s[j] != 46
  }

  /** `e` holds the text one octet later, with the length of the coming label in place of each dot and
      at the start. */
  predicate Shifted(s: Bytes, e: Bytes) {
    && |e| == |s| + 1
    && (forall k :: 0 <= k < |s| && s[k] != 46 ==> e[k + 1] == s[k])
    && IsLengthAt(s, 0, e[0])
    && (forall k :: 0 <= k < |s| && s[k] == 46 ==> IsLengthAt(s, k + 1, e[k + 1]))
  }

  lemma LengthStays(s: Bytes, l: Bytes, k: nat, n: nat)
    requires IsLengthAt(s, k, n)
    ensures IsLengthAt(s + [46] + l, k, n)
  {}

  lemma ShiftedGrows(s: Bytes, e: Bytes, l: Bytes)
    requires Shifted(s, e) && |l| < TWO_8 && 46 !in l
    ensures Shifted(s + [46] + l, e + [|l|] + l)
  {
    var s', e' := s + [46] + l, e + [|l|] + l;
    LengthStays(s, l, 0, e[0]);
    assert forall j :: |s| < j < |s'| ==> s'[j] == l[j - |s| - 1];
    forall k | 0 <= k < |s'| && s'[k] != 46 ensures e'[k + 1] == s'[k] {}
    forall k | 0 <= k < |s'| && s'[k] == 46 ensures IsLengthAt(s', k + 1, e'[k + 1]) {
      if k < |s| { LengthStays(s, l, k + 1, e[k + 1]); }
    }
  }

  lemma {:induction false} EncodedLabelsShifted(ls: seq<Bytes>)
    requires Short(ls) && |ls| > 0 && forall l :: l in ls ==> 46 !in l
    ensures Shifted(Join(ls), EncodeLabels(ls))
  {
    var n := |ls| - 1;
    assert ls[n] in ls;
    if n == 0 {
      assert EncodeLabels(ls) == [|ls[0]|] + ls[0];
    } else {
      EncodedLabelsShifted(ls[..n]);
      ShiftedGrows(Join(ls[..n]), EncodeLabels(ls[..n]), ls[n]);
    }
  }

  /** The encoding octet by octet, without labels: every text octet but the dots stands one later, and at
      the start and in place of each dot stands the distance to the next dot or the end. */
  lemma EncodedIsShifted(s: Bytes)
    requires |s| < TWO_8
    ensures Shifted(s, Encode(s))
  {
    SplitIsShort(s);
    LabelsOfSplit(s);
    forall l | l in Split(s) ensures 46 !in l { assert LabelOf(l, s); }
    EncodedLabelsShifted(Split(s));
    JoinOfSplit(s);
  }
}
