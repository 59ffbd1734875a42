/**
 * The browser's `btoa` and `atob` on strings whose characters stand for single
 * bytes (the "binary string" convention of the HTML standard): `btoa` rejects a
 * character above U+00FF and encodes with the standard alphabet of section 4 of
 * RFC 4648; `atob` implements the forgiving-base64 decode of the WHATWG Infra
 * Standard and yields one character per decoded byte.
 */
module Base64 {
  import opened Wrappers

  type Byte = x: int | 0 <= x < 256

  /** True if every character of `s` fits in one byte (U+0000..U+00FF). */
  predicate IsLatin1(s: string) {
    forall k | 0 <= k < |s| :: s[k] as int < 256
  }

  function ToBytes(s: string): (b: seq<Byte>)
    requires IsLatin1(s)
    ensures |b| == |s|
    ensures forall k :: 0 <= k < |s| ==> b[k] == s[k] as int
  {
    seq(|s|, k requires 0 <= k < |s| => s[k] as int)
  }

  function FromBytes(b: seq<Byte>): (s: string)
    ensures |s| == |b| && IsLatin1(s)
    ensures forall k :: 0 <= k < |b| ==> s[k] as int == b[k]
  {
    seq(|b|, k requires 0 <= k < |b| => b[k] as char)
  }

  lemma FromBytesToBytes(s: string)
    requires IsLatin1(s)
    ensures FromBytes(ToBytes(s)) == s
  {
    var t := FromBytes(ToBytes(s));
    assert forall k :: 0 <= k < |s| ==> t[k] as int == s[k] as int;
  }

  // ----- The standard alphabet -----

  predicate IsBase64Char(c: char) {
    ('A' <= c <= 'Z') || ('a' <= c <= 'z') || ('0' <= c <= '9') || c == '+' || c == '/'
  }

  /** True if every character of `s` is in the standard alphabet. */
  predicate IsAlphabetText(s: string) {
    forall k | 0 <= k < |s| :: IsBase64Char(s[k])
  }

  /** The value of an alphabet character. */
  function CharValue(c: char): (v: nat)
    requires IsBase64Char(c)
    ensures v < 64
  {
    if 'A' <= c <= 'Z' then c as int - 'A' as int
    else if 'a' <= c <= 'z' then c as int - 'a' as int + 26
    else if '0' <= c <= '9' then c as int - '0' as int + 52
    else if c == '+' then 62
    else 63
  }

  /** The alphabet character for a 6-bit value; `CharValue` inverts it (`SextetValue`). */
  function Sextet(v: nat): char
    requires v < 64
  {
    if v < 26 then ('A' as int + v) as char
    else if v < 52 then ('a' as int + v - 26) as char
    else if v < 62 then ('0' as int + v - 52) as char
    else if v == 62 then '+'
    else '/'
  }

  lemma SextetValue(v: nat)
    requires v < 64
    ensures IsBase64Char(Sextet(v)) && CharValue(Sextet(v)) == v
  {
  }

  // ----- Encoding -----

  /** Three bytes become four characters of six bits each. */
  function Group(x: Byte, y: Byte, z: Byte): (r: string)
    ensures |r| == 4
  {
    [Sextet(x / 4), Sextet(x % 4 * 16 + y / 16), Sextet(y % 16 * 4 + z / 64), Sextet(z % 64)]
  }

  /** A final 1 or 2 bytes become 2 or 3 characters, the missing bits taken as zero. */
  function Tail(b: seq<Byte>): (r: string)
    requires |b| < 3
    ensures |r| == TailLength(|b|)
  {
    if |b| == 0 then ""
    else if |b| == 1 then [Sextet(b[0] / 4), Sextet(b[0] % 4 * 16)]
    else [Sextet(b[0] / 4), Sextet(b[0] % 4 * 16 + b[1] / 16), Sextet(b[1] % 16 * 4)]
  }

  function TailLength(r: nat): nat
    requires r < 3
  {
    if r == 0 then 0 else r + 1
  }

  /** The encoding without its padding. */
  function Body(b: seq<Byte>): string
    decreases |b|
  {
    if |b| < 3 then Tail(b) else Group(b[0], b[1], b[2]) + Body(b[3..])
  }

  /** The padding `btoa` appends after `n` input bytes. */
  function Padding(n: nat): (p: string)
    ensures forall k :: 0 <= k < |p| ==> p[k] == '='
    ensures |p| == (3 - n % 3) % 3
  {
    if n % 3 == 1 then "==" else if n % 3 == 2 then "=" else ""
  }

  function EncodeBytes(b: seq<Byte>): string
  {
    Body(b) + Padding(|b|)
  }

  /** `btoa`: None where the browser throws InvalidCharacterError. */
  function Btoa(s: string): (r: Option<string>)
    ensures r.None? <==> exists k :: 0 <= k < |s| && s[k] as int >= 256
  {
    if IsLatin1(s) then Some(EncodeBytes(ToBytes(s))) else None
  }

  // ----- Decoding -----

  predicate IsAsciiWhitespace(c: char) {
    c == '\t' || c == '\n' || c == '\U{000C}' || c == '\r' || c == ' '
  }

  function RemoveAsciiWhitespace(s: string): string
    decreases |s|
  {
    if s == [] then []
    else if IsAsciiWhitespace(s[0]) then RemoveAsciiWhitespace(s[1..])
    else [s[0]] + RemoveAsciiWhitespace(s[1..])
  }

  /** Removes a final "==" or, failing that, a final "=". */
  function StripPadding(s: string): string
  {
    if |s| >= 2 && s[|s| - 1] == '=' && s[|s| - 2] == '=' then s[..|s| - 2]
    else if |s| >= 1 && s[|s| - 1] == '=' then s[..|s| - 1]
    else s
  }

  /** Decodes alphabet characters; the bits left over after the last whole byte are dropped. */
  function Decode(d: string): seq<Byte>
    requires IsAlphabetText(d)
    requires |d| % 4 != 1
    decreases |d|
  {
    if |d| == 0 then []
    else if |d| == 2 then
      [CharValue(d[0]) * 4 + CharValue(d[1]) / 16]
    else if |d| == 3 then
      [CharValue(d[0]) * 4 + CharValue(d[1]) / 16,
       CharValue(d[1]) % 16 * 16 + CharValue(d[2]) / 4]
    else
      [CharValue(d[0]) * 4 + CharValue(d[1]) / 16,
       CharValue(d[1]) % 16 * 16 + CharValue(d[2]) / 4,
       CharValue(d[2]) % 4 * 64 + CharValue(d[3])] + Decode(d[4..])
  }

  /** `atob`: None where the browser throws InvalidCharacterError. */
  function Atob(s: string): Option<string>
  {
    var text := RemoveAsciiWhitespace(s);
    var data := if |text| % 4 == 0 then StripPadding(text) else text;
    if |data| % 4 == 1 then None
    else if !IsAlphabetText(data) then None
    else Some(FromBytes(Decode(data)))
  }

  // ----- Properties of the encoding -----

  lemma GroupAlphabet(x: Byte, y: Byte, z: Byte)
    ensures IsAlphabetText(Group(x, y, z))
  {
    SextetValue(x / 4);
    SextetValue(x % 4 * 16 + y / 16);
    SextetValue(y % 16 * 4 + z / 64);
    SextetValue(z % 64);
  }

  /** `btoa` emits only alphabet characters before its padding. */
  lemma {:induction false} BodyAlphabet(b: seq<Byte>)
    ensures IsAlphabetText(Body(b))
    decreases |b|
  {
    if |b| == 1 {
      SextetValue(b[0] / 4);
      SextetValue(b[0] % 4 * 16);
    } else if |b| == 2 {
      SextetValue(b[0] / 4);
      SextetValue(b[0] % 4 * 16 + b[1] / 16);
      SextetValue(b[1] % 16 * 4);
    } else if |b| >= 3 {
      GroupAlphabet(b[0], b[1], b[2]);
      BodyAlphabet(b[3..]);
      var g, rest := Group(b[0], b[1], b[2]), Body(b[3..]);
      forall k | 0 <= k < |g + rest| ensures IsBase64Char((g + rest)[k]) {
        if k >= 4 { assert (g + rest)[k] == rest[k - 4]; }
      }
    }
  }

  /** 4 characters per whole group of 3 bytes, then 0, 2 or 3 for the rest. */
  lemma {:induction false} BodySize(b: seq<Byte>)
    ensures |Body(b)| == 4 * (|b| / 3) + TailLength(|b| % 3)
    decreases |b|
  {
    if |b| >= 3 {
      BodySize(b[3..]);
      assert |b| / 3 == |b[3..]| / 3 + 1;
    }
  }

  /** The last group of the unpadded encoding holds 0, 2 or 3 characters, never 1. */
  lemma BodyTail(b: seq<Byte>)
    ensures |Body(b)| % 4 == TailLength(|b| % 3)
    ensures |Body(b)| % 4 != 1
  {
    BodySize(b);
    var q, t := |b| / 3, TailLength(|b| % 3);
    assert |Body(b)| == 4 * q + t && t < 4;
  }

  // ----- Decoding inverts encoding -----

  /** The three bytes of a group come back out of its four characters. */
  lemma GroupArithmetic(x: Byte, y: Byte, z: Byte)
    ensures x / 4 * 4 + (x % 4 * 16 + y / 16) / 16 == x
    ensures (x % 4 * 16 + y / 16) % 16 * 16 + (y % 16 * 4 + z / 64) / 4 == y
    ensures (y % 16 * 4 + z / 64) % 4 * 64 + z % 64 == z
  {
  }

  lemma GroupAppend(x: Byte, y: Byte, z: Byte, rest: string)
    requires IsAlphabetText(rest) && |rest| % 4 != 1
    ensures var d := Group(x, y, z) + rest;
            && IsAlphabetText(d) && |d| % 4 != 1 && d[4..] == rest
  {
    var d := Group(x, y, z) + rest;
    GroupAlphabet(x, y, z);
    assert d[4..] == rest;
    assert |d| % 4 == |rest| % 4 by { assert |d| == |rest| + 4; }
    forall k | 0 <= k < |d| ensures IsBase64Char(d[k]) {
      if k >= 4 { assert d[k] == rest[k - 4]; }
    }
  }

  lemma DecodeGroup(x: Byte, y: Byte, z: Byte, rest: string)
    requires IsAlphabetText(rest) && |rest| % 4 != 1
    ensures var d := Group(x, y, z) + rest;
            && IsAlphabetText(d) && |d| % 4 != 1
            && Decode(d) == [x, y, z] + Decode(rest)
  {
    var d := Group(x, y, z) + rest;
    GroupAppend(x, y, z, rest);
    SextetValue(x / 4);
    SextetValue(x % 4 * 16 + y / 16);
    SextetValue(y % 16 * 4 + z / 64);
    SextetValue(z % 64);
    GroupArithmetic(x, y, z);
  }

  lemma DecodeTail(b: seq<Byte>)
    requires |b| < 3
    ensures IsAlphabetText(Tail(b)) && |Tail(b)| % 4 != 1 && Decode(Tail(b)) == b
  {
    if |b| == 1 {
      SextetValue(b[0] / 4);
      SextetValue(b[0] % 4 * 16);
      GroupArithmetic(b[0], 0, 0);
    } else if |b| == 2 {
      SextetValue(b[0] / 4);
      SextetValue(b[0] % 4 * 16 + b[1] / 16);
      SextetValue(b[1] % 16 * 4);
      GroupArithmetic(b[0], b[1], 0);
    }
  }

  lemma {:induction false} DecodeBody(b: seq<Byte>)
    ensures IsAlphabetText(Body(b)) && |Body(b)| % 4 != 1 && Decode(Body(b)) == b
    decreases |b|
  {
    if |b| < 3 {
      DecodeTail(b);
    } else {
      DecodeBody(b[3..]);
      DecodeGroup(b[0], b[1], b[2], Body(b[3..]));
      assert b == [b[0], b[1], b[2]] + b[3..];
    }
  }

  /** Stripping the padding of a `btoa` result leaves exactly the alphabet characters. */
  lemma StripEncodedPadding(b: seq<Byte>)
    ensures StripPadding(EncodeBytes(b)) == Body(b)
  {
    var body := Body(b);
    var e := EncodeBytes(b);
    BodyAlphabet(b);
    if |b| % 3 == 0 {
      assert e == body;
      assert |body| > 0 ==> IsBase64Char(body[|body| - 1]);
    } else if |b| % 3 == 1 {
      assert e[..|e| - 2] == body;
    } else {
      assert e[..|e| - 1] == body;
      assert |body| >= 1 by { BodySize(b); }
      assert IsBase64Char(e[|e| - 2]);
    }
  }

  lemma {:induction false} RemoveWhitespaceIdentity(s: string)
    requires forall k :: 0 <= k < |s| ==> !IsAsciiWhitespace(s[k])
    ensures RemoveAsciiWhitespace(s) == s
    decreases |s|
  {
    if s != [] {
      RemoveWhitespaceIdentity(s[1..]);
    }
  }

  /** A `btoa` result is whole groups of four characters, none of them whitespace. */
  lemma EncodedShape(b: seq<Byte>)
    ensures |EncodeBytes(b)| % 4 == 0
    ensures forall k :: 0 <= k < |EncodeBytes(b)| ==> !IsAsciiWhitespace(EncodeBytes(b)[k])
  {
    var body := Body(b);
    var e := EncodeBytes(b);
    BodyAlphabet(b);
    BodySize(b);
    var q := |b| / 3;
    assert |e| == 4 * q || |e| == 4 * q + 4;
    forall k | 0 <= k < |e| ensures !IsAsciiWhitespace(e[k]) {
      if k >= |body| { assert e[k] == Padding(|b|)[k - |body|]; }
    }
  }

  /** `atob` decodes what `btoa` encoded back into the same bytes. */
  lemma AtobEncoded(b: seq<Byte>)
    ensures Atob(EncodeBytes(b)) == Some(FromBytes(b))
  {
    var e := EncodeBytes(b);
    EncodedShape(b);
    RemoveWhitespaceIdentity(e);
    StripEncodedPadding(b);
    DecodeBody(b);
  }

  /** `atob` inverts `btoa` on every string `btoa` accepts. */
  lemma AtobBtoa(s: string)
    requires IsLatin1(s)
    ensures Atob(EncodeBytes(ToBytes(s))) == Some(s)
  {
    AtobEncoded(ToBytes(s));
    FromBytesToBytes(s);
  }

  // ----- Rejection -----

  /** Whitespace removal keeps every other character. */
  lemma {:induction false} RemoveWhitespaceKeeps(s: string, k: nat)
    requires k < |s| && !IsAsciiWhitespace(s[k])
    ensures s[k] in RemoveAsciiWhitespace(s)
    decreases |s|
  {
    if k > 0 {
      RemoveWhitespaceKeeps(s[1..], k - 1);
    }
  }

  /** `atob` rejects text holding a character outside the alphabet, `=` and ASCII whitespace. */
  lemma AtobRejectsForeignChar(s: string, k: nat)
    requires k < |s| && !IsBase64Char(s[k]) && s[k] != '=' && !IsAsciiWhitespace(s[k])
    ensures Atob(s) == None
  {
    var text := RemoveAsciiWhitespace(s);
    RemoveWhitespaceKeeps(s, k);
    var data := if |text| % 4 == 0 then StripPadding(text) else text;
    var j :| 0 <= j < |text| && text[j] == s[k];
    assert data[j] == s[k];
  }
}
