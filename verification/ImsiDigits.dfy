/**
 IMSI and MSISDN digits in S11 messages (3GPP TS 29.274 section 8.3): two digits an octet, the
 first in the low half. The standard fills an odd last half with 0xF; the encoder leaves 0.
 */
module ImsiDigits {
  import opened Common
  import opened Bits

  const ZERO: uint8 := 48
  const FILLER: int := 15

  type Digits = seq<uint8>

  predicate AreDigits(d: Digits) {
    forall i :: 0 <= i < |d| ==> ZERO <= d[i] <= ZERO + 9
  }

  /** The half octet of a character: the low four bits of its distance from '0'. */
  function Nibble(c: uint8): int {
    (c - ZERO) % 16
  }

  /** The coding with a given filler in the last half when the number of digits is odd. */
  function Pack(d: Digits, filler: int): (r: seq<uint8>)
    requires 0 <= filler < 16
  {
    seq((|d| + 1) / 2, i requires 0 <= i < (|d| + 1) / 2 =>
      (Nibble(d[2 * i]) + 16 * (if 2 * i + 1 < |d| then Nibble(d[2 * i + 1]) else filler)) as uint8)
  }

  /** The character of half octet number `i`. */
  function CharAt(ie: seq<uint8>, i: nat): uint8
    requires i < 2 * |ie|
  {
    if i % 2 == 0 then ie[i / 2] % 16 + ZERO else ie[i / 2] / 16 + ZERO
  }

  function Unpack(ie: seq<uint8>): (r: Digits)
    ensures |r| == 2 * |ie|
  {
    seq(2 * |ie|, i requires 0 <= i < 2 * |ie| => CharAt(ie, i))
  }

  /** The decoder's result: a last character that came from the filler is dropped. */
  function Decode(ie: seq<uint8>): Digits {
    var r := Unpack(ie);
    if r != [] && r[|r| - 1] == ZERO + FILLER then r[..|r| - 1] else r
  }

  /** s11_imsi_ie_get. The mask flips between the two halves of an octet. */
  method DecodeImsi(ie: seq<uint8>, digit: array<uint8>) returns (length: nat)
    requires 0 < |ie| && 2 * |ie| <= digit.Length < TWO_8
    modifies digit
    ensures length == |Decode(ie)| && digit[..length] == Decode(ie)
    ensures length < 2 * |ie| ==> digit[length] == 0
    ensures forall j :: 2 * |ie| <= j < digit.Length ==> digit[j] == old(digit[j])
  {
    length := 2 * |ie|;
    var lowHalf := true;
    for i := 0 to 2 * |ie|
      invariant lowHalf == (i % 2 == 0)
      invariant forall j :: 0 <= j < i ==> digit[j] == CharAt(ie, j)
      invariant forall j :: i <= j < digit.Length ==> digit[j] == old(digit[j])
    {
      if lowHalf {
        digit[i] := ie[i / 2] % 16;
      } else {
        digit[i] := ie[i / 2] / 16;
      }
      digit[i] := digit[i] + ZERO;
      lowHalf := !lowHalf;
    }
    ghost var all := digit[..length];
    assert all == Unpack(ie);
    assert digit[length - 1] == all[length - 1];
    if digit[length - 1] == FILLER + ZERO {
      digit[length - 1] := 0;
      length := length - 1;
      assert digit[..length] == all[..length];
    }
  }

  /** Octet `j` of the buffer once `i` digits are in. */
  function Partial(d: Digits, i: nat, j: nat): (b: uint8)
    requires i <= |d|
  {
    (if 2 * j < i then Nibble(d[2 * j]) else 0) + 16 * (if 2 * j + 1 < i then Nibble(d[2 * j + 1]) else 0)
  }

  lemma NextDigit(d: Digits, i: nat)
    requires i < |d|
    ensures Or(Partial(d, i, i / 2), Shl(Nibble(d[i]), if i % 2 == 1 then 4 else 0)) == Partial(d, i + 1, i / 2)
  {
    if i % 2 == 1 {
      assert i / 2 * 2 + 1 == i;
      assert Partial(d, i, i / 2) == Nibble(d[i - 1]);
      OrHalves(Nibble(d[i - 1]), Nibble(d[i]));
    } else {
      assert i / 2 * 2 == i;
      assert Partial(d, i, i / 2) == 0;
    }
  }

  lemma OrHalves(low: nat, high: nat)
    requires low < 16
    ensures Or(low, Shl(high, 4)) == low + 16 * high
  {
    Pow2Of8();
    OrIsPlus(high, 4, low);
    OrComm(low, high * 16);
  }

  lemma OtherOctetsStay(d: Digits, i: nat, j: nat)
    requires i < |d| && j != i / 2
    ensures Partial(d, i + 1, j) == Partial(d, i, j)
  {}

  /** s11_imsi_ie_set: each digit is OR-ed into its half of a zero-filled buffer. */
  method EncodeImsi(d: Digits) returns (temp: array<uint8>)
    requires |d| < TWO_8
    ensures fresh(temp) && temp[..] == Pack(d, 0)
  {
    var length := if |d| % 2 == 0 then |d| / 2 else |d| / 2 + 1;
    temp := new uint8[length](_ => 0);
    for i := 0 to |d|
      invariant forall j :: 0 <= j < length ==> temp[j] == Partial(d, i, j)
    {
      var shift := if i % 2 == 1 then 4 else 0;
      NextDigit(d, i);
      forall j | 0 <= j < length && j != i / 2 ensures Partial(d, i + 1, j) == Partial(d, i, j) {
        OtherOctetsStay(d, i, j);
      }
      temp[i / 2] := Or(temp[i / 2], Shl(Nibble(d[i]), shift));
    }
  }

  lemma UnpackOfPack(d: Digits, filler: int)
    requires AreDigits(d) && 0 <= filler < 16
    ensures Unpack(Pack(d, filler)) == if |d| % 2 == 0 then d else d + [(filler + ZERO) as uint8]
  {
    var r := Unpack(Pack(d, filler));
    forall i | 0 <= i < |d| ensures Agree(r, d, i) { HalfOfPack(d, filler, i); }
    if |d| % 2 == 1 { LastOfPack(d, filler); }
    AgreeingDigits(r, d, (filler + ZERO) as uint8);
  }

  predicate Agree(r: Digits, d: Digits, i: nat) {
    i < |r| && i < |d| && r[i] == d[i]
  }

  lemma AgreeingDigits(r: Digits, d: Digits, last: uint8)
    requires forall i :: 0 <= i < |d| ==> Agree(r, d, i)
    requires |r| == |d| || (|r| == |d| + 1 && r[|d|] == last)
    ensures r == if |r| == |d| then d else d + [last]
  {
    forall i | 0 <= i < |d| ensures r[i] == d[i] { assert Agree(r, d, i); }
  }

  /** The decoder inverts the standard's coding on every digit string. */
  lemma DecodeInvertsStandard(d: Digits)
    requires AreDigits(d)
    ensures Decode(Pack(d, FILLER)) == d
  {
    UnpackOfPack(d, FILLER);
    var last: uint8 := ZERO + FILLER;
    assert (d + [last])[..|d|] == d;
  }

  lemma Halves(low: nat, high: nat)
    requires low < 16 && high < 16
    ensures (low + 16 * high) % 16 == low && (low + 16 * high) / 16 == high
  {}

  lemma HalfOfPack(d: Digits, filler: int, i: nat)
    requires AreDigits(d) && 0 <= filler < 16 && i < |d|
    ensures CharAt(Pack(d, filler), i) == d[i]
  {
    var j := i / 2;
    Halves(Nibble(d[2 * j]), if 2 * j + 1 < |d| then Nibble(d[2 * j + 1]) else filler);
    assert Nibble(d[i]) == d[i] - ZERO;
    assert i == if i % 2 == 0 then 2 * j else 2 * j + 1;
  }

  lemma LastOfPack(d: Digits, filler: int)
    requires 0 <= filler < 16 && |d| % 2 == 1
    ensures 2 * |Pack(d, filler)| == |d| + 1 && CharAt(Pack(d, filler), |d|) == filler + ZERO
  {
    assert 2 * (|d| / 2) + 1 == |d|;
  }

  /** It inverts the encoder exactly on the strings of even length; after an odd number of digits
      it reads one more '0'. */
  lemma DecodeOfEncoded(d: Digits)
    requires AreDigits(d)
    ensures Decode(Pack(d, 0)) == if |d| % 2 == 0 then d else d + [ZERO]
    ensures Decode(Pack(d, 0)) == d <==> |d| % 2 == 0
  {
    UnpackOfPack(d, 0);
    assert d != [] ==> d[|d| - 1] <= ZERO + 9;
  }

  predicate EndsWithFiller(ie: seq<uint8>) {
    ie != [] && ie[|ie| - 1] / 16 == FILLER
  }

  lemma HalvesRecombine(ie: seq<uint8>, j: nat)
    requires j < |ie|
    ensures CharAt(ie, 2 * j) == ie[j] % 16 + ZERO && CharAt(ie, 2 * j + 1) == ie[j] / 16 + ZERO
    ensures Nibble(CharAt(ie, 2 * j)) == ie[j] % 16 && Nibble(CharAt(ie, 2 * j + 1)) == ie[j] / 16
  {}

  lemma PackOfUnpack(ie: seq<uint8>, filler: int)
    requires 0 <= filler < 16
    ensures Pack(Unpack(ie), filler) == ie
  {
    forall j | 0 <= j < |ie| ensures Pack(Unpack(ie), filler)[j] == ie[j] { HalvesRecombine(ie, j); }
  }

  lemma PackOfShortened(ie: seq<uint8>, filler: int)
    requires EndsWithFiller(ie) && 0 <= filler < 16
    ensures var n := |ie| - 1;
      Pack(Unpack(ie)[..2 * n + 1], filler) == ie[n := (ie[n] % 16 + 16 * filler) as uint8]
  {
    var n := |ie| - 1;
    var p := Pack(Unpack(ie)[..2 * n + 1], filler);
    forall j | 0 <= j < |ie| ensures p[j] == ie[n := (ie[n] % 16 + 16 * filler) as uint8][j] {
      HalvesRecombine(ie, j);
    }
  }

  lemma LastCharacter(ie: seq<uint8>)
    requires ie != []
    ensures Unpack(ie)[2 * |ie| - 1] == ie[|ie| - 1] / 16 + ZERO
  {
    HalvesRecombine(ie, |ie| - 1);
  }

  lemma DecodeByLastHalf(ie: seq<uint8>)
    ensures Decode(ie) == if EndsWithFiller(ie) then Unpack(ie)[..2 * (|ie| - 1) + 1] else Unpack(ie)
  {
    if ie != [] { LastCharacter(ie); }
  }

  /** Over all octets, digits or not: the standard's coding restores what was decoded, and the
      encoder restores it exactly when the last half octet is not the filler. */
  lemma ReencodeDigitsIff(ie: seq<uint8>)
    ensures Pack(Decode(ie), FILLER) == ie
    ensures Pack(Decode(ie), 0) == ie <==> !EndsWithFiller(ie)
  {
    DecodeByLastHalf(ie);
    if EndsWithFiller(ie) {
      PackOfShortened(ie, FILLER);
      PackOfShortened(ie, 0);
      RefillLast(ie);
    } else {
      PackOfUnpack(ie, FILLER);
      PackOfUnpack(ie, 0);
    }
  }

  lemma RefillLast(ie: seq<uint8>)
    requires EndsWithFiller(ie)
    ensures var n := |ie| - 1;
      && ie[n := (ie[n] % 16 + 16 * FILLER) as uint8] == ie
      && ie[n := (ie[n] % 16 + 16 * 0) as uint8] != ie
  {
    var n := |ie| - 1;
    assert ie[n] == ie[n] % 16 + 16 * FILLER;
    assert ie[n := (ie[n] % 16 + 16 * 0) as uint8][n] != ie[n];
  }

  /** The order of the halves: digit 2j is in the low half of octet j, digit 2j + 1 in the high half, as
      their values, with the filler in a high half left over. */
  lemma OctetsHoldDigits(d: Digits, filler: int, j: nat)
    requires AreDigits(d) && 0 <= filler < 16 && 2 * j < |d|
    ensures |Pack(d, filler)| == (|d| + 1) / 2
    ensures Pack(d, filler)[j] == (d[2 * j] - 48) + 16 * (if 2 * j + 1 < |d| then d[2 * j + 1] - 48 else filler)
  {}

  /** The decoded characters are '0' plus the halves in that order, all of them unless the last half is
      15, which is dropped. */
  lemma DigitsOfOctets(ie: seq<uint8>, j: nat)
    requires j < |ie|
    ensures |Decode(ie)| == 2 * |ie| - if ie[|ie| - 1] / 16 == 15 then 1 else 0
    ensures Decode(ie)[2 * j] == 48 + ie[j] % 16
    ensures 2 * j + 1 < |Decode(ie)| ==> Decode(ie)[2 * j + 1] == 48 + ie[j] / 16
  {
    DecodeByLastHalf(ie);
    HalvesRecombine(ie, j);
  }
}
