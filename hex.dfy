/** The pieces of string handling the relay relies on: the `hex` crate's
    `decode` and `encode`, ASCII letter-case mapping, and `trim_start_matches("0x")`. */
module Hex {
  import opened Wrappers
  import opened ByteNat

  type Bytes = seq<bv8>

  /** A character `hex::decode` accepts: a decimal digit or a letter a-f in either case. */
  predicate IsHexChar(c: char) {
    '0' <= c <= '9' || 'a' <= c <= 'f' || 'A' <= c <= 'F'
  }

  function DigitValue(c: char): (v: nat)
    requires IsHexChar(c)
    ensures v < 16
  {
    if '0' <= c <= '9' then c as nat - '0' as nat
    else if 'a' <= c <= 'f' then c as nat - 'a' as nat + 10
    else c as nat - 'A' as nat + 10
  }

  /** The lower-case digit `hex::encode` writes for a nibble. */
  function DigitChar(v: nat): (c: char)
    requires v < 16
    ensures IsHexChar(c) && DigitValue(c) == v
    ensures !('A' <= c <= 'Z')
  {
    if v < 10 then ('0' as nat + v) as char else ('a' as nat + v - 10) as char
  }

  /** Why `hex::decode` refused its input. */
  datatype HexError = OddLength | InvalidHexCharacter(c: char, index: nat)

  function PairByte(hi: char, lo: char): bv8
    requires IsHexChar(hi) && IsHexChar(lo)
  {
    (16 * DigitValue(hi) + DigitValue(lo)) as bv8
  }

  /** Decodes the digit pairs of `s` from position `i` on, left to right, stopping at the
      first character that is not a hex digit. */
  function DecodePairs(s: string, i: nat): (r: Result<Bytes, HexError>)
    requires |s| % 2 == 0 && i % 2 == 0 && i <= |s|
    decreases |s| - i
    ensures r.Ok? <==> forall j :: i <= j < |s| ==> IsHexChar(s[j])
    ensures r.Ok? ==> 2 * |r.value| == |s| - i
    ensures r.Ok? ==> forall k :: 0 <= k < |r.value| ==> r.value[k] == PairByte(s[i + 2 * k], s[i + 2 * k + 1])
    ensures r.Err? ==> r.error.InvalidHexCharacter?
    ensures r.Err? ==>
      (var e := r.error;
       i <= e.index < |s| && e.c == s[e.index] && !IsHexChar(s[e.index]) &&
       forall j :: i <= j < e.index ==> IsHexChar(s[j]))
  {
    if i == |s| then Ok([])
    else if !IsHexChar(s[i]) then Err(InvalidHexCharacter(s[i], i))
    else if !IsHexChar(s[i + 1]) then Err(InvalidHexCharacter(s[i + 1], i + 1))
    else
      match DecodePairs(s, i + 2)
      case Err(e) => Err(e)
      case Ok(rest) => Ok([PairByte(s[i], s[i + 1])] + rest)
  }

  /** `hex::decode`: an odd length is refused first, then the first non-hex character. */
  function HexDecode(s: string): (r: Result<Bytes, HexError>)
    ensures r.Ok? <==> |s| % 2 == 0 && forall j :: 0 <= j < |s| ==> IsHexChar(s[j])
    ensures r == Err(OddLength) <==> |s| % 2 == 1
    ensures r.Ok? ==> 2 * |r.value| == |s|
    ensures r.Ok? ==> forall k :: 0 <= k < |r.value| ==> r.value[k] == PairByte(s[2 * k], s[2 * k + 1])
    ensures r.Err? && r.error.InvalidHexCharacter? ==>
      (var e := r.error;
       e.index < |s| && e.c == s[e.index] && !IsHexChar(e.c) &&
       forall j :: 0 <= j < e.index ==> IsHexChar(s[j]))
  {
    if |s| % 2 != 0 then Err(OddLength) else DecodePairs(s, 0)
  }

  /** `hex::encode`: two lower-case digits per byte, high nibble first. */
  function HexEncode(b: Bytes): (s: string)
    ensures |s| == 2 * |b|
    ensures forall i :: 0 <= i < |s| ==> IsHexChar(s[i]) && !('A' <= s[i] <= 'Z')
  {
    seq(2 * |b|, i requires 0 <= i < 2 * |b| =>
      if i % 2 == 0 then DigitChar(b[i / 2] as nat / 16) else DigitChar(b[i / 2] as nat % 16))
  }

  function LowerChar(c: char): char {
    if 'A' <= c <= 'Z' then (c as nat + 32) as char else c
  }

  function UpperChar(c: char): char {
    if 'a' <= c <= 'z' then (c as nat - 32) as char else c
  }

  /** `str::to_lowercase`, restricted to ASCII letters: the same text up to letter case,
      with no upper-case letter left. */
  function ToLower(s: string): (r: string)
    ensures |r| == |s|
    ensures forall i :: 0 <= i < |s| ==> !('A' <= r[i] <= 'Z') && UpperChar(r[i]) == UpperChar(s[i])
  {
    seq(|s|, i requires 0 <= i < |s| => LowerChar(s[i]))
  }

  /** `str::to_uppercase`, restricted to ASCII letters: the same text up to letter case,
      with no lower-case letter left. */
  function ToUpper(s: string): (r: string)
    ensures |r| == |s|
    ensures forall i :: 0 <= i < |s| ==> !('a' <= r[i] <= 'z') && LowerChar(r[i]) == LowerChar(s[i])
  {
    seq(|s|, i requires 0 <= i < |s| => UpperChar(s[i]))
  }

  predicate StartsWith0x(s: string) {
    |s| >= 2 && s[0] == '0' && s[1] == 'x'
  }

  /** `n` copies of "0x" in a row. */
  function Repeat0x(n: nat): (s: string)
    ensures |s| == 2 * n
  {
    if n == 0 then "" else "0x" + Repeat0x(n - 1)
  }

  /** `trim_start_matches("0x")`: strips the prefix as often as it occurs. */
  function TrimLeading0x(s: string): (r: string)
    decreases |s|
    ensures |r| <= |s| && (|s| - |r|) % 2 == 0
    ensures !StartsWith0x(r)
  {
    if StartsWith0x(s) then TrimLeading0x(s[2..]) else s
  }

  /** What was stripped is exactly a run of "0x" pairs: the input is that run followed by
      the result. */
  lemma {:induction false} TrimLeading0xShape(s: string) returns (n: nat)
    decreases |s|
    ensures s == Repeat0x(n) + TrimLeading0x(s)
  {
    if StartsWith0x(s) {
      var t := s[2..];
      var r := TrimLeading0x(t);
      var m := TrimLeading0xShape(t);
      n := m + 1;
      assert TrimLeading0x(s) == r;
      assert Repeat0x(n) == "0x" + Repeat0x(m);
      assert s == "0x" + t;
      assert "0x" + (Repeat0x(m) + r) == ("0x" + Repeat0x(m)) + r;
    } else {
      n := 0;
      assert Repeat0x(0) + s == s;
    }
  }

  /** A string of the form "0x"^n followed by something that does not start with "0x"
      trims to exactly that something. */
  lemma {:induction false} TrimLeading0xOfRepeat(n: nat, t: string)
    requires !StartsWith0x(t)
    ensures TrimLeading0x(Repeat0x(n) + t) == t
  {
    if n > 0 {
      var rest := Repeat0x(n - 1) + t;
      assert Repeat0x(n) + t == "0x" + rest;
      assert ("0x" + rest)[2..] == rest;
      TrimLeading0xOfRepeat(n - 1, t);
    } else {
      assert Repeat0x(n) + t == t;
    }
  }

  lemma PairByteOfDigits(x: bv8)
    ensures PairByte(DigitChar(x as nat / 16), DigitChar(x as nat % 16)) == x
  {
    var hi, lo := x as nat / 16, x as nat % 16;
    NibblesOfByte(x, hi, lo);
    PairOfDigitValues(DigitChar(hi), DigitChar(lo), hi, lo);
  }

  lemma NibblesOfByte(x: bv8, hi: nat, lo: nat)
    requires hi == x as nat / 16 && lo == x as nat % 16
    ensures (16 * hi + lo) as bv8 == x
  {
    assert 16 * hi + lo == x as nat;
    NatOfByte(x);
  }

  lemma PairOfDigitValues(ch: char, cl: char, hi: nat, lo: nat)
    requires IsHexChar(ch) && IsHexChar(cl) && DigitValue(ch) == hi && DigitValue(cl) == lo
    ensures PairByte(ch, cl) == (16 * hi + lo) as bv8
  {
  }

  lemma NatOfByte(x: bv8)
    ensures (x as nat) as bv8 == x
  {
  }

  lemma EncodeAt(b: Bytes, k: nat)
    requires k < |b|
    ensures HexEncode(b)[2 * k] == DigitChar(b[k] as nat / 16)
    ensures HexEncode(b)[2 * k + 1] == DigitChar(b[k] as nat % 16)
  {
    assert (2 * k) % 2 == 0 && (2 * k) / 2 == k;
    assert (2 * k + 1) % 2 == 1 && (2 * k + 1) / 2 == k;
  }

  /** Decoding inverts encoding, for every byte string. */
  lemma HexRoundTrip(b: Bytes)
    ensures HexDecode(HexEncode(b)) == Ok(b)
  {
    var s := HexEncode(b);
    var r := HexDecode(s);
    assert r.Ok? && |r.value| == |b|;
    forall k | 0 <= k < |b| ensures r.value[k] == b[k] {
      assert r.value[k] == PairByte(s[2 * k], s[2 * k + 1]);
      EncodeAt(b, k);
      PairByteOfDigits(b[k]);
    }
    assert r.value == b;
  }

  /** The digit `hex::encode` writes for a digit's value is that digit in lower case. */
  lemma DigitCharOfValue(c: char)
    requires IsHexChar(c)
    ensures DigitChar(DigitValue(c)) == LowerChar(c)
  {
  }

  lemma NibblesOfPair(hi: char, lo: char)
    requires IsHexChar(hi) && IsHexChar(lo)
    ensures PairByte(hi, lo) as nat / 16 == DigitValue(hi)
    ensures PairByte(hi, lo) as nat % 16 == DigitValue(lo)
  {
    var h, l := DigitValue(hi), DigitValue(lo);
    ByteOfPairValues(h, l);
  }

  lemma ByteOfPairValues(h: nat, l: nat)
    requires h < 16 && l < 16
    ensures ((16 * h + l) as bv8) as nat / 16 == h
    ensures ((16 * h + l) as bv8) as nat % 16 == l
  {
    var n := 16 * h + l;
    SmallNatOfByte(n);
  }

  /** Encoding inverts decoding up to letter case: hex text that decodes is re-encoded
      as the same text in lower case. */
  lemma EncodeOfDecode(s: string)
    requires HexDecode(s).Ok?
    ensures HexEncode(HexDecode(s).value) == ToLower(s)
  {
    var e := HexEncode(HexDecode(s).value);
    forall i | 0 <= i < |s| ensures e[i] == ToLower(s)[i] {
      var k := i / 2;
      EncodePairOfDecode(s, k);
      assert i == 2 * k || i == 2 * k + 1;
    }
    assert e == ToLower(s);
  }

  lemma EncodePairOfDecode(s: string, k: nat)
    requires HexDecode(s).Ok? && 2 * k + 1 < |s|
    ensures HexEncode(HexDecode(s).value)[2 * k] == LowerChar(s[2 * k])
    ensures HexEncode(HexDecode(s).value)[2 * k + 1] == LowerChar(s[2 * k + 1])
  {
    var b := HexDecode(s).value;
    assert b[k] == PairByte(s[2 * k], s[2 * k + 1]);
    EncodeAt(b, k);
    NibblesOfPair(s[2 * k], s[2 * k + 1]);
    DigitCharOfValue(s[2 * k]);
    DigitCharOfValue(s[2 * k + 1]);
  }

  /** Two texts of equal length whose characters agree on being hex digits and on
      their digit values decode alike. */
  lemma DecodeAgrees(s: string, u: string)
    requires |u| == |s|
    requires forall j :: 0 <= j < |s| ==> IsHexChar(u[j]) == IsHexChar(s[j])
    requires forall j :: 0 <= j < |s| && IsHexChar(s[j]) ==> DigitValue(u[j]) == DigitValue(s[j])
    ensures HexDecode(u).Ok? == HexDecode(s).Ok?
    ensures HexDecode(s).Ok? ==> HexDecode(u) == HexDecode(s)
  {
    var ru, rs := HexDecode(u), HexDecode(s);
    if rs.Ok? {
      forall k | 0 <= k < |rs.value| ensures ru.value[k] == rs.value[k] {
        assert 2 * k + 1 < |s|;
      }
      assert ru.value == rs.value;
    }
  }

  /** Changing the letter case of hex text does not change whether it decodes, nor what
      it decodes to. */
  lemma HexDecodeIgnoresCase(s: string)
    ensures HexDecode(ToUpper(s)).Ok? == HexDecode(s).Ok? == HexDecode(ToLower(s)).Ok?
    ensures HexDecode(s).Ok? ==> HexDecode(ToUpper(s)) == HexDecode(s) == HexDecode(ToLower(s))
  {
    DecodeAgrees(s, ToUpper(s));
    DecodeAgrees(s, ToLower(s));
  }

  /** Lower-casing is idempotent over the output of `hex::encode`. */
  lemma LowerOfEncode(b: Bytes)
    ensures ToLower(HexEncode(b)) == HexEncode(b)
  {
  }
}
