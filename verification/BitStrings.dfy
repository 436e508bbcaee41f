/** ASN.1 BIT STRINGs read as unsigned integers. */
module BitStrings {
  import opened Common
  import opened Bits
  import opened Division

  /** The big-endian value of a sequence of octets. */
  function BigEndian(s: seq<uint8>): nat {
    if s == [] then 0 else BigEndian(s[..|s| - 1]) * TWO_8 + s[|s| - 1]
  }

  /** What a BIT STRING whose last octet has `unused` spare low bits stands for. */
  function Value(s: seq<uint8>, unused: nat): int {
    BigEndian(s) / Pow2(unused)
  }

  /** A product shifted right by part of its factor. */
  lemma ShiftedQuotient(m: nat, b: nat, unused: nat)
    requires unused <= 7 && b < TWO_8
    ensures (m * TWO_8 + b) / Pow2(unused) == m * Pow2(8 - unused) + Shr(b, unused)
    ensures Shr(b, unused) < Pow2(8 - unused)
  {
    ShrIsQuotient(b, unused);
    Pow2Sum(unused, 8 - unused);
    Pow2Of8();
    SplitQuotient(m, b, Pow2(unused), Pow2(8 - unused));
  }

  lemma SplitQuotient(m: nat, b: nat, p: nat, q: nat)
    requires p > 0 && p * q == TWO_8 && b < TWO_8
    ensures (m * TWO_8 + b) / p == m * q + b / p && b / p < q
  {
    Regroup(m, p, q);
    QuotientOfSum(m * q, p, b);
    QuotientBelow(b, p, q);
  }

  lemma Regroup(m: nat, p: nat, q: nat)
    ensures m * (p * q) == (m * q) * p
  {}

  /** The shift-and-OR loop of BIT_STRING_to_uint32, for any number of octets. The value never has
      more bits than the octets, so a 32-bit result is exact for up to four of them. */
  method BitStringToUint(buf: seq<uint8>, unused: nat) returns (result: nat)
    requires |buf| > 0 && unused <= 7
    ensures result == Value(buf, unused)
  {
    result := 0;
    var shift := (|buf| - 1) * 8 - unused;
    for index := 0 to |buf| - 1
      invariant shift == (|buf| - 1 - index) * 8 - unused
      invariant result == BigEndian(buf[..index]) * Pow2(shift + 8)
    {
      var m := BigEndian(buf[..index]);
      OctetFits(buf[index], shift);
      OrIsPlus(m, shift + 8, Shl(buf[index], shift));
      result := Or(result, Shl(buf[index], shift));
      assert buf[..index + 1][..index] == buf[..index];
      AppendOctet(m, buf[index], shift);
      shift := shift - 8;
    }
    var n := |buf| - 1;
    var m := BigEndian(buf[..n]);
    LastOctet(m, buf[n], unused, result);
    result := Or(result, Shr(buf[n], unused));
  }

  lemma OctetFits(b: uint8, k: nat)
    ensures Shl(b, k) < Pow2(k + 8)
  {
    Pow2Sum(8, k);
    Pow2Of8();
    MulMonotone(b, 255, Pow2(k));
  }

  lemma AppendOctet(m: nat, b: uint8, k: nat)
    ensures m * Pow2(k + 8) + b * Pow2(k) == (m * TWO_8 + b) * Pow2(k)
  {
    Pow2Sum(8, k);
    Pow2Of8();
  }

  lemma {:induction false} BigEndianBound(s: seq<uint8>)
    ensures BigEndian(s) < Pow2(8 * |s|)
  {
    if s != [] {
      var n := |s| - 1;
      BigEndianBound(s[..n]);
      Pow2Sum(8, 8 * n);
      Pow2Of8();
    }
  }

  /** The value fits the octets' own width, so nothing is lost in a result of that width. */
  lemma ValueFits(s: seq<uint8>, unused: nat)
    ensures Value(s, unused) < Pow2(8 * |s|)
    ensures |s| == 1 ==> Value(s, unused) < TWO_8
    ensures |s| == 2 ==> Value(s, unused) < TWO_16
    ensures |s| <= 4 ==> Value(s, unused) < TWO_32
  {
    BigEndianBound(s);
    assert Pow2(8) == 256 by { Pow2Of8(); }
    Pow2Sum(8, 8);
    Pow2Sum(8, 16);
    Pow2Sum(16, 16);
    QuotientShrinks(BigEndian(s), Pow2(unused));
  }

  method BitStringToUint32(buf: seq<uint8>, unused: nat) returns (result: uint32)
    requires 0 < |buf| <= 4 && unused <= 7
    ensures result == Value(buf, unused)
  {
    ValueFits(buf, unused);
    result := BitStringToUint(buf, unused);
  }

  /** BIT_STRING_to_uint16: a two-octet string falls through to the one-octet case. */
  method BitStringToUint16(buf: seq<uint8>, unused: nat) returns (result: uint16)
    requires 0 < |buf| <= 2 && unused <= 7
    ensures result == Value(buf, unused)
  {
    ValueFits(buf, unused);
    var acc: nat, index := 0, 0;
    if |buf| == 2 {
      acc := Shl(buf[0], 8 - unused);
      index := 1;
    }
    ghost var m := BigEndian(buf[..index]);
    assert acc == m * Pow2(8 - unused) by {
      if |buf| == 2 { OneOctet(buf[0]); assert buf[..1] == [buf[0]]; }
    }
    LastOctet(m, buf[index], unused, acc);
    acc := Or(acc, Shr(buf[index], unused));
    result := acc;
  }

  lemma OneOctet(b: uint8)
    ensures BigEndian([b]) == b
  {
    assert [b][..0] == [];
  }

  /** OR-ing in the used bits of the last octet completes the value. */
  lemma LastOctet(m: nat, b: uint8, unused: nat, acc: nat)
    requires unused <= 7 && acc == m * Pow2(8 - unused)
    ensures Or(acc, Shr(b, unused)) == (m * TWO_8 + b) / Pow2(unused)
  {
    ShiftedQuotient(m, b, unused);
    OrIsPlus(m, 8 - unused, Shr(b, unused));
  }

  method BitStringToUint8(buf: seq<uint8>, unused: nat) returns (result: uint8)
    requires |buf| == 1 && unused <= 7
    ensures result == Value(buf, unused)
  {
    ValueFits(buf, unused);
    OneOctet(buf[0]);
    assert buf == [buf[0]];
    ShrIsQuotient(buf[0], unused);
    result := Shr(buf[0], unused);
  }

  // ---------------------------------------------------------------- eNB ids

  /** The MME's own decoding of a 20-bit macro eNB id and of a 28-bit home eNB id. */
  function MacroEnbId(b: seq<uint8>): nat
    requires |b| >= 3
  {
    Shl(b[0], 12) + Shl(b[1], 4) + Shr(b[2], 4)
  }

  function HomeEnbId(b: seq<uint8>): nat
    requires |b| >= 4
  {
    Shl(b[0], 20) + Shl(b[1], 12) + Shl(b[2], 4) + Shr(b[3], 4)
  }

  /** Both agree with the general conversion of a string with four unused bits. */
  lemma EnbIdsAgree(b: seq<uint8>)
    ensures |b| == 3 ==> MacroEnbId(b) == Value(b, 4) < 0x10_0000
    ensures |b| == 4 ==> HomeEnbId(b) == Value(b, 4) < 0x1000_0000
  {
    if |b| >= 3 {
      Pow2Of8();
      Pow2Sum(8, 4);
      Pow2Sum(8, 12);
      assert b[..2] == [b[0], b[1]] && b[..3] == [b[0], b[1]] + [b[2]];
      TwoOctets(b[0], b[1]);
      if |b| == 3 {
        ShiftedQuotient(BigEndian(b[..2]), b[2], 4);
      } else if |b| == 4 {
        assert b[..3][..2] == b[..2];
        ShiftedQuotient(BigEndian(b[..3]), b[3], 4);
      }
    }
  }

  lemma TwoOctets(b0: uint8, b1: uint8)
    ensures BigEndian([b0, b1]) == b0 as int * TWO_8 + b1
  {
    OneOctet(b0);
    assert [b0, b1][..1] == [b0];
  }
}
