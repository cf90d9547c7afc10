/** Textual renderings of bytes and integers: hex.EncodeToString / hex.DecodeString,
    which key the maps of transactions by ID, and strconv.FormatInt(n, 16), which
    renders the integers of a block header (IntToHex, block/pow.go). */
module Hex {
  import opened Bytes
  import opened Outcomes

  /** The lowercase character of hex digit d. */
  function DigitChar(d: nat): char
    requires d < 16
  {
    if d < 10 then ('0' as int + d) as char else ('a' as int + d - 10) as char
  }

  /** hex.EncodeToString: two lowercase digits per byte, high nibble first. */
  function HexEncode(b: Bytes): string
  {
    if b == [] then "" else [DigitChar(b[0] as int / 16), DigitChar(b[0] as int % 16)] + HexEncode(b[1..])
  }

  /** The value of one hex digit; hex.DecodeString accepts both cases. */
  function DigitValue(c: char): (r: Option<nat>)
    ensures r.Some? ==> r.value < 16
  {
    if '0' <= c <= '9' then Some(c as int - '0' as int)
    else if 'a' <= c <= 'f' then Some(c as int - 'a' as int + 10)
    else if 'A' <= c <= 'F' then Some(c as int - 'A' as int + 10)
    else None
  }

  /** hex.DecodeString: None for an odd length or a character that is not a hex digit. */
  function HexDecode(s: string): Option<Bytes>
  {
    if s == [] then Some([])
    else if |s| == 1 then None
    else
      match (DigitValue(s[0]), DigitValue(s[1]), HexDecode(s[2..]))
      case (Some(hi), Some(lo), Some(rest)) => Some([(hi * 16 + lo) as byte] + rest)
      case _ => None
  }

  lemma DigitCharValue(d: nat)
    requires d < 16
    ensures DigitValue(DigitChar(d)) == Some(d)
  {
  }

  /** Decoding an encoding gives back the bytes. */
  lemma {:induction false} HexRoundTrip(b: Bytes)
    ensures HexDecode(HexEncode(b)) == Some(b)
  {
    if b != [] {
      HexRoundTrip(b[1..]);
      var s := HexEncode(b);
      assert s[2..] == HexEncode(b[1..]);
      DigitCharValue(b[0] as int / 16);
      DigitCharValue(b[0] as int % 16);
      assert [b[0]] + b[1..] == b;
    }
  }

  /** Distinct byte strings have distinct encodings, so hex keys never collide. */
  lemma HexEncodeInjective(a: Bytes, b: Bytes)
    ensures HexEncode(a) == HexEncode(b) ==> a == b
  {
    HexRoundTrip(a);
    HexRoundTrip(b);
  }

  /** A string that some byte string encodes to; exactly these decode and re-encode unchanged. */
  ghost predicate IsEncoding(s: string)
  {
    exists b :: HexEncode(b) == s
  }

  lemma EncodingDecodes(s: string)
    requires IsEncoding(s)
    ensures HexDecode(s).Some? && HexEncode(HexDecode(s).value) == s
  {
    var b :| HexEncode(b) == s;
    HexRoundTrip(b);
  }

  // ----- strconv.FormatInt(n, 16) -----

  const Minus: byte := 45

  /** The ASCII code of the lowercase hex digit d. */
  function DigitByte(d: nat): byte
    requires d < 16
  {
    if d < 10 then (48 + d) as byte else (87 + d) as byte
  }

  predicate IsHexDigit(c: byte)
  {
    48 <= c <= 57 || 97 <= c <= 102
  }

  function ByteDigit(c: byte): (d: nat)
    requires IsHexDigit(c)
    ensures d < 16
  {
    if c <= 57 then (c - 48) as nat else (c - 87) as nat
  }

  /** The digits of n in base 16, most significant first, without leading zeros. */
  function NatToHex(n: nat): Bytes
    decreases n
  {
    if n < 16 then [DigitByte(n)] else NatToHex(n / 16) + [DigitByte(n % 16)]
  }

  /** IntToHex (block/pow.go): strconv.FormatInt(n, 16) as bytes. */
  function IntToHex(n: Int64): Bytes
  {
    if n < 0 then [Minus] + NatToHex(-(n as int)) else NatToHex(n)
  }

  /** Reads a nonempty run of lowercase hex digits. */
  function ParseDigits(b: Bytes): Option<nat>
  {
    if b == [] || !IsHexDigit(b[|b| - 1]) then None
    else if |b| == 1 then Some(ByteDigit(b[0]))
    else
      match ParseDigits(b[..|b| - 1])
      case None => None
      case Some(v) => Some(v * 16 + ByteDigit(b[|b| - 1]))
  }

  /** Reads an optional minus sign followed by lowercase hex digits. */
  function ParseHexInt(b: Bytes): Option<int>
  {
    if |b| > 0 && b[0] == Minus then
      match ParseDigits(b[1..])
      case None => None
      case Some(v) => Some(0 - v as int)
    else
      match ParseDigits(b)
      case None => None
      case Some(v) => Some(v)
  }

  /** The digits of n are lowercase hex digits, and the first is '0' only for n = 0, alone. */
  lemma {:induction false} NatToHexShape(n: nat)
    ensures |NatToHex(n)| >= 1
    ensures forall i :: 0 <= i < |NatToHex(n)| ==> IsHexDigit(NatToHex(n)[i])
    ensures NatToHex(n)[0] == 48 <==> n == 0
    ensures n == 0 ==> NatToHex(n) == [48]
    decreases n
  {
    if n >= 16 {
      NatToHexShape(n / 16);
    }
  }

  lemma {:induction false} NatToHexRoundTrip(n: nat)
    ensures ParseDigits(NatToHex(n)) == Some(n)
    decreases n
  {
    if n >= 16 {
      NatToHexRoundTrip(n / 16);
      NatToHexShape(n / 16);
      var b := NatToHex(n);
      assert b[..|b| - 1] == NatToHex(n / 16);
    }
  }

  /** IntToHex is lowercase base 16 with no leading zeros and a '-' before negatives. */
  lemma IntToHexShape(n: Int64)
    ensures var r := IntToHex(n);
      if n < 0 then
        |r| >= 2 && r[0] == Minus && r[1] != 48 && forall i :: 1 <= i < |r| ==> IsHexDigit(r[i])
      else
        |r| >= 1 && (forall i :: 0 <= i < |r| ==> IsHexDigit(r[i])) && (r[0] == 48 ==> n == 0 && r == [48])
  {
    if n < 0 {
      NatToHexShape(-(n as int));
      var r := IntToHex(n);
      forall i | 1 <= i < |r| ensures IsHexDigit(r[i]) {
        assert r[i] == NatToHex(-(n as int))[i - 1];
      }
    } else {
      NatToHexShape(n);
    }
  }

  /** Parsing the rendering gives back the integer. */
  lemma IntToHexRoundTrip(n: Int64)
    ensures ParseHexInt(IntToHex(n)) == Some(n)
  {
    var r := IntToHex(n);
    if n < 0 {
      var m: nat := -(n as int);
      NatToHexRoundTrip(m);
      assert r == [Minus] + NatToHex(m);
      assert |r| > 0 && r[0] == Minus && r[1..] == NatToHex(m);
      assert ParseDigits(r[1..]) == Some(m);
    } else {
      NatToHexRoundTrip(n);
      NatToHexShape(n);
      assert r == NatToHex(n) && IsHexDigit(r[0]);
      assert r[0] != Minus;
    }
  }

  /** Distinct integers render differently. */
  lemma IntToHexInjective(a: Int64, b: Int64)
    ensures IntToHex(a) == IntToHex(b) ==> a == b
  {
    IntToHexRoundTrip(a);
    IntToHexRoundTrip(b);
  }
}
