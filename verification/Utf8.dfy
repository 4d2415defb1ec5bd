/**
 Decoding of UTF-8, as the original's readers get it from their standard library. A byte sequence is
 accepted exactly when it is the encoding of a text, and then it is decoded to that text.
 */
module Utf8 {
  import opened Wrappers
  import opened Rasters

  /** The Unicode scalar values: every code point but the surrogates. */
  predicate IsScalar(n: int) { 0 <= n < 0xD800 || 0xE000 <= n < 0x11_0000 }

  predicate IsTrail(b: Byte) { 0x80 <= b < 0xC0 }

  function EncodeChar(c: char): (r: seq<Byte>)
    ensures 0 < |r| <= 4 && forall k | 0 < k < |r| :: IsTrail(r[k])
  {
    var n := c as int;
    if n < 0x80 then [n]
    else if n < 0x800 then [0xC0 + n / 0x40, 0x80 + n % 0x40]
    else if n < 0x1_0000 then [0xE0 + n / 0x1000, 0x80 + n / 0x40 % 0x40, 0x80 + n % 0x40]
    else [0xF0 + n / 0x4_0000, 0x80 + n / 0x1000 % 0x40, 0x80 + n / 0x40 % 0x40, 0x80 + n % 0x40]
  }

  function Encode(s: string): seq<Byte> {
    if s == "" then [] else EncodeChar(s[0]) + Encode(s[1..])
  }

  /** The scalar value two, three or four bytes stand for, when there is one and no shorter way to write it. */
  function Two(a: Byte, b: Byte): (r: Option<int>)
    ensures r.Some? ==> IsScalar(r.value)
  {
    var n := (a - 0xC0) * 0x40 + (b - 0x80);
    if 0xC0 <= a < 0xE0 && IsTrail(b) && n >= 0x80 then Some(n) else None
  }

  function Three(a: Byte, b: Byte, c: Byte): (r: Option<int>)
    ensures r.Some? ==> IsScalar(r.value)
  {
    var n := (a - 0xE0) * 0x1000 + (b - 0x80) * 0x40 + (c - 0x80);
    if 0xE0 <= a < 0xF0 && IsTrail(b) && IsTrail(c) && n >= 0x800 && IsScalar(n) then Some(n) else None
  }

  function Four(a: Byte, b: Byte, c: Byte, d: Byte): (r: Option<int>)
    ensures r.Some? ==> IsScalar(r.value)
  {
    var n := (a - 0xF0) * 0x4_0000 + (b - 0x80) * 0x1000 + (c - 0x80) * 0x40 + (d - 0x80);
    if 0xF0 <= a < 0xF8 && IsTrail(b) && IsTrail(c) && IsTrail(d) && n >= 0x1_0000 && IsScalar(n) then Some(n)
    else None
  }

  function Length(first: Byte): (n: nat)
    ensures 1 <= n <= 4
  {
    if first < 0x80 then 1 else if first < 0xE0 then 2 else if first < 0xF0 then 3 else 4
  }

  function Value(bytes: seq<Byte>): (r: Option<int>)
    requires bytes != [] && |bytes| == Length(bytes[0])
    ensures r.Some? ==> IsScalar(r.value)
  {
    match |bytes|
    case 1 => Some(bytes[0])
    case 2 => Two(bytes[0], bytes[1])
    case 3 => Three(bytes[0], bytes[1], bytes[2])
    case _ => Four(bytes[0], bytes[1], bytes[2], bytes[3])
  }

  /** The first character and how many bytes it takes. */
  function FirstChar(bytes: seq<Byte>): (r: Option<(nat, char)>)
    ensures r.Some? ==> 0 < r.value.0 <= |bytes|
  {
    if bytes == [] || |bytes| < Length(bytes[0]) then None
    else
      var n := Length(bytes[0]);
      var value := Value(bytes[..n]);
      if value.None? then None else Some((n, value.value as char))
  }

  function Decode(bytes: seq<Byte>): Result<string> {
    if bytes == [] then Ok("")
    else
      var first := FirstChar(bytes);
      if first.None? then Err
      else
        var rest := Decode(bytes[first.value.0..]);
        if rest.Err? then Err else Ok([first.value.1] + rest.value)
  }

  lemma TwoBytes(n: int)
    requires 0x80 <= n < 0x800
    ensures Two(0xC0 + n / 0x40, 0x80 + n % 0x40) == Some(n)
  {}

  lemma ThreeBytes(n: int)
    requires 0x800 <= n < 0x1_0000 && IsScalar(n)
    ensures Three(0xE0 + n / 0x1000, 0x80 + n / 0x40 % 0x40, 0x80 + n % 0x40) == Some(n)
  {
    var m := n / 0x40;
    assert n == m * 0x40 + n % 0x40 && m == m / 0x40 * 0x40 + m % 0x40 && m / 0x40 == n / 0x1000;
  }

  lemma FourBytes(n: int)
    requires 0x1_0000 <= n < 0x11_0000
    ensures Four(0xF0 + n / 0x4_0000, 0x80 + n / 0x1000 % 0x40, 0x80 + n / 0x40 % 0x40, 0x80 + n % 0x40) == Some(n)
  {
    var m := n / 0x40;
    var k := m / 0x40;
    assert n == m * 0x40 + n % 0x40 && m == k * 0x40 + m % 0x40 && k == k / 0x40 * 0x40 + k % 0x40;
    assert k == n / 0x1000 && k / 0x40 == n / 0x4_0000;
  }

  lemma ValueOfEncoded(c: char)
    ensures |EncodeChar(c)| == Length(EncodeChar(c)[0]) && Value(EncodeChar(c)) == Some(c as int)
  {
    hide Two, Three, Four;
    var n := c as int;
    if 0x80 <= n < 0x800 {
      TwoBytes(n);
    } else if 0x800 <= n < 0x1_0000 {
      ThreeBytes(n);
    } else if n >= 0x1_0000 {
      FourBytes(n);
    }
  }

  lemma FirstOfEncoded(c: char, rest: seq<Byte>)
    ensures FirstChar(EncodeChar(c) + rest) == Some((|EncodeChar(c)|, c))
  {
    hide EncodeChar, Value, Length;
    var code := EncodeChar(c);
    ValueOfEncoded(c);
    assert (code + rest)[0] == code[0] && (code + rest)[..|code|] == code;
  }

  lemma TwoMeans(a: Byte, b: Byte, n: int)
    requires Two(a, b) == Some(n)
    ensures 0x80 <= n < 0x800 && a == 0xC0 + n / 0x40 && b == 0x80 + n % 0x40
  {}

  lemma ThreeMeans(a: Byte, b: Byte, c: Byte, n: int)
    requires Three(a, b, c) == Some(n)
    ensures 0x800 <= n < 0x1_0000 && a == 0xE0 + n / 0x1000 && b == 0x80 + n / 0x40 % 0x40 && c == 0x80 + n % 0x40
  {
    assert n / 0x40 == (a - 0xE0) * 0x40 + (b - 0x80);
  }

  lemma FourMeans(a: Byte, b: Byte, c: Byte, d: Byte, n: int)
    requires Four(a, b, c, d) == Some(n)
    ensures 0x1_0000 <= n < 0x11_0000 && a == 0xF0 + n / 0x4_0000 && b == 0x80 + n / 0x1000 % 0x40
    ensures c == 0x80 + n / 0x40 % 0x40 && d == 0x80 + n % 0x40
  {
    assert n / 0x40 == (a - 0xF0) * 0x1000 + (b - 0x80) * 0x40 + (c - 0x80);
    assert n / 0x1000 == (a - 0xF0) * 0x40 + (b - 0x80);
  }

  lemma ValueIsEncoded(bytes: seq<Byte>)
    requires bytes != [] && |bytes| == Length(bytes[0]) && Value(bytes).Some?
    ensures EncodeChar(Value(bytes).value as char) == bytes
  {
    hide Two, Three, Four;
    var n := Value(bytes).value;
    if |bytes| == 2 {
      TwoMeans(bytes[0], bytes[1], n);
    } else if |bytes| == 3 {
      ThreeMeans(bytes[0], bytes[1], bytes[2], n);
    } else if |bytes| == 4 {
      FourMeans(bytes[0], bytes[1], bytes[2], bytes[3], n);
    }
  }

  /** A decoded character's bytes are the ones it encodes to. */
  lemma DecodedIsEncoded(bytes: seq<Byte>)
    requires FirstChar(bytes).Some?
    ensures EncodeChar(FirstChar(bytes).value.1) == bytes[..FirstChar(bytes).value.0]
  {
    hide EncodeChar, Value;
    ValueIsEncoded(bytes[..Length(bytes[0])]);
  }

  lemma AsciiFirst(b: Byte, rest: seq<Byte>)
    requires b < 0x80
    ensures Decode([b] + rest) == if Decode(rest).Err? then Err else Ok([b as char] + Decode(rest).value)
  {
    var bytes := [b] + rest;
    assert FirstChar(bytes) == Some((1, b as char)) && bytes[1..] == rest;
  }

  lemma {:induction false} DecodeEncode(s: string)
    ensures Decode(Encode(s)) == Ok(s)
  {
    if s != "" {
      var rest := Encode(s[1..]);
      FirstOfEncoded(s[0], rest);
      assert (EncodeChar(s[0]) + rest)[|EncodeChar(s[0])|..] == rest;
      DecodeEncode(s[1..]);
      assert [s[0]] + s[1..] == s;
    }
  }

  /** Decoding accepts exactly the encodings of texts and gives back the encoded text. */
  lemma {:induction false} DecodesExactlyEncodings(bytes: seq<Byte>, s: string)
    ensures Decode(bytes) == Ok(s) <==> bytes == Encode(s)
    decreases |bytes|
  {
    DecodeEncode(s);
    if bytes != [] && Decode(bytes) == Ok(s) {
      var (n, c) := FirstChar(bytes).value;
      DecodedIsEncoded(bytes);
      assert s[0] == c && Decode(bytes[n..]) == Ok(s[1..]);
      DecodesExactlyEncodings(bytes[n..], s[1..]);
      assert bytes == bytes[..n] + bytes[n..];
    }
  }
}
