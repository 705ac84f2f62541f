/** Base16 decoding of a text string as Python's codecs.decode(s, "hex") performs it
    (binascii.a2b_hex; the alphabet of section 8 of RFC 4648, accepting both letter cases),
    and the lower-case encoding it inverts. */
module Hex {
  import opened Wrappers

  type Bytes = seq<bv8>

  /** ValueError for non-ASCII text; binascii.Error "Odd-length string" and
      "Non-hexadecimal digit found". */
  datatype HexError = NonAscii | OddLength | NonHexDigit

  predicate IsAscii(s: string)
  {
    forall k :: 0 <= k < |s| ==> s[k] < 128 as char
  }

  function HexDigitValue(c: char): (r: Option<nat>)
    ensures r.Some? ==> r.value < 16
  {
    if '0' <= c <= '9' then Some(c as nat - '0' as nat)
    else if 'a' <= c <= 'f' then Some(c as nat - 'a' as nat + 10)
    else if 'A' <= c <= 'F' then Some(c as nat - 'A' as nat + 10)
    else None
  }

  predicate IsHexDigit(c: char)
  {
    HexDigitValue(c).Some?
  }

  /** The non-ASCII check comes first, then the length, then the digits pair by pair. The
      decoding succeeds exactly on even-length strings of hex digits, with one byte per two
      digits. */
  function HexDecode(s: string): (r: Result<Bytes, HexError>)
    ensures r.Ok? <==> |s| % 2 == 0 && forall k :: 0 <= k < |s| ==> IsHexDigit(s[k])
    ensures r.Ok? ==> |s| == 2 * |r.value|
    ensures r == Err(NonAscii) <==> !IsAscii(s)
    ensures r == Err(OddLength) <==> IsAscii(s) && |s| % 2 == 1
  {
    if !IsAscii(s) then Err(NonAscii)
    else if |s| % 2 == 1 then Err(OddLength)
    else DecodePairsOk(s); DecodePairs(s)
  }

  function DecodePairs(s: string): Result<Bytes, HexError>
    requires |s| % 2 == 0
    decreases |s|
  {
    if |s| == 0 then Ok([])
    else
      match (HexDigitValue(s[0]), HexDigitValue(s[1]))
      case (Some(hi), Some(lo)) =>
        (match DecodePairs(s[2..])
         case Ok(rest) => Ok([(hi * 16 + lo) as bv8] + rest)
         case Err(e) => Err(e))
      case _ => Err(NonHexDigit)
  }

  function HexChar(d: nat): (c: char)
    requires d < 16
    ensures HexDigitValue(c) == Some(d)
  {
    if d < 10 then (d + '0' as nat) as char else (d - 10 + 'a' as nat) as char
  }

  /** Lower-case Base16 encoding, two digits per byte, high nibble first. */
  function HexEncode(b: Bytes): string
    decreases |b|
  {
    if |b| == 0 then [] else [HexChar(b[0] as nat / 16), HexChar(b[0] as nat % 16)] + HexEncode(b[1..])
  }

  /** The digit a character denotes, written in lower case. */
  function LowerHex(c: char): char
  {
    if 'A' <= c <= 'F' then (c as nat - 'A' as nat + 'a' as nat) as char else c
  }

  lemma {:induction false} HexEncodeShape(b: Bytes)
    ensures |HexEncode(b)| == 2 * |b|
    ensures IsAscii(HexEncode(b))
    ensures forall k :: 0 <= k < |HexEncode(b)| ==> IsHexDigit(HexEncode(b)[k])
    decreases |b|
  {
    if |b| > 0 {
      HexEncodeShape(b[1..]);
    }
  }

  /** Decoding the encoding of any byte string returns that byte string. */
  lemma {:induction false} HexRoundTrip(b: Bytes)
    ensures HexDecode(HexEncode(b)) == Ok(b)
  {
    HexEncodeShape(b);
    DecodeEncoded(b);
  }

  lemma {:induction false} DecodeEncoded(b: Bytes)
    ensures |HexEncode(b)| % 2 == 0
    ensures DecodePairs(HexEncode(b)) == Ok(b)
    decreases |b|
  {
    if |b| > 0 {
      var x, rest := b[0], b[1..];
      assert b == [x] + rest;
      HexEncodeCons(x, rest);
      DecodeEncoded(rest);
      NibblesRejoin(x);
      DecodeEncodedStep(x, rest, x as nat / 16, x as nat % 16);
    }
  }

  lemma DecodeEncodedStep(x: bv8, rest: Bytes, hi: nat, lo: nat)
    requires hi < 16 && lo < 16 && (hi * 16 + lo) as bv8 == x
    requires HexEncode([x] + rest) == [HexChar(hi), HexChar(lo)] + HexEncode(rest)
    requires |HexEncode(rest)| % 2 == 0 && DecodePairs(HexEncode(rest)) == Ok(rest)
    ensures DecodePairs(HexEncode([x] + rest)) == Ok([x] + rest)
  {
    DecodePairsPair(hi, lo, HexEncode(rest));
  }

  /** Decoding two digits followed by more digits. */
  lemma DecodePairsPair(hi: nat, lo: nat, t: string)
    requires hi < 16 && lo < 16 && |t| % 2 == 0
    ensures DecodePairs([HexChar(hi), HexChar(lo)] + t)
            == match DecodePairs(t) case Ok(r) => Ok([(hi * 16 + lo) as bv8] + r) case Err(e) => Err(e)
  {
    assert ([HexChar(hi), HexChar(lo)] + t)[2..] == t;
  }

  lemma NibblesRejoin(x: bv8)
    ensures x as nat / 16 < 16 && x as nat % 16 < 16
    ensures (x as nat / 16 * 16 + x as nat % 16) as bv8 == x
  {
  }

  /** Decoding succeeds exactly on even-length strings of hex digits, and then yields one byte
      per two digits. */
  lemma {:induction false} DecodePairsOk(s: string)
    requires |s| % 2 == 0
    ensures DecodePairs(s).Ok? <==> forall k :: 0 <= k < |s| ==> IsHexDigit(s[k])
    ensures DecodePairs(s).Ok? ==> |s| == 2 * |DecodePairs(s).value|
    ensures DecodePairs(s).Err? ==> DecodePairs(s).error == NonHexDigit
    decreases |s|
  {
    if |s| > 0 {
      DecodePairsOk(s[2..]);
      assert forall k :: 2 <= k < |s| ==> s[k] == s[2..][k - 2];
    }
  }

  /** s with every hex letter in lower case. */
  function LowerAll(s: string): string
    decreases |s|
  {
    if |s| == 0 then [] else [LowerHex(s[0])] + LowerAll(s[1..])
  }

  /** Encoding what was decoded gives back the input with its digits in lower case. */
  lemma DecodeThenEncode(s: string)
    requires HexDecode(s).Ok?
    ensures HexEncode(HexDecode(s).value) == LowerAll(s)
  {
    DecodePairsThenEncode(s);
  }

  lemma HexCharOfDigit(c: char)
    requires IsHexDigit(c)
    ensures HexChar(HexDigitValue(c).value) == LowerHex(c)
  {
  }

  lemma ByteNibbles(hi: nat, lo: nat)
    requires hi < 16 && lo < 16
    ensures hi * 16 + lo < 256
    ensures ((hi * 16 + lo) as bv8) as nat / 16 == hi
    ensures ((hi * 16 + lo) as bv8) as nat % 16 == lo
  {
  }

  lemma HexEncodeCons(x: bv8, rest: Bytes)
    ensures HexEncode([x] + rest) == [HexChar(x as nat / 16), HexChar(x as nat % 16)] + HexEncode(rest)
  {
    assert ([x] + rest)[1..] == rest;
  }

  lemma DecodePairsCons(s: string)
    requires |s| >= 2 && |s| % 2 == 0 && DecodePairs(s).Ok?
    ensures IsHexDigit(s[0]) && IsHexDigit(s[1])
    ensures DecodePairs(s[2..]).Ok?
    ensures DecodePairs(s).value
            == [(HexDigitValue(s[0]).value * 16 + HexDigitValue(s[1]).value) as bv8] + DecodePairs(s[2..]).value
  {
  }

  lemma LowerAllPair(s: string)
    requires |s| >= 2
    ensures LowerAll(s) == [LowerHex(s[0]), LowerHex(s[1])] + LowerAll(s[2..])
  {
    assert s[1..][1..] == s[2..];
  }

  lemma {:induction false} DecodePairsThenEncode(s: string)
    requires |s| % 2 == 0 && DecodePairs(s).Ok?
    ensures HexEncode(DecodePairs(s).value) == LowerAll(s)
    decreases |s|
  {
    if |s| > 0 {
      DecodePairsCons(s);
      var t := s[2..];
      DecodePairsThenEncode(t);
      var hi, lo := HexDigitValue(s[0]).value, HexDigitValue(s[1]).value;
      ByteNibbles(hi, lo);
      HexCharOfDigit(s[0]);
      HexCharOfDigit(s[1]);
      HexEncodeCons((hi * 16 + lo) as bv8, DecodePairs(t).value);
      LowerAllPair(s);
    }
  }
}
