/**
 * lib/encoder.ts: the URL-safe base64 codec of the fragment format
 * (`toBase64`, `fromBase64`, `encodeUriBase64`, `decodeUriBase64`) and the
 * deprecated percent-encoded format (`encodeUriJson`, `decodeUriJson`).
 *
 * `JSON.stringify`/`JSON.parse` and `encodeURIComponent`/`decodeURIComponent`
 * belong to the JavaScript runtime; they are the fields of a `Host`, and what
 * the codec relies on them for is stated as predicates on the host.
 */
module Encoder {
  import opened Wrappers
  import opened Base64

  /** A JSON value. */
  datatype Json =
    | JNull
    | JBool(b: bool)
    | JNumber(n: real)
    | JString(s: string)
    | JArray(items: seq<Json>)
    | JObject(members: seq<(string, Json)>)

  /** The `[]` every decoder falls back to. */
  const EmptyArray: Json := JArray([])

  /** The runtime functions the codec calls; None stands for a thrown exception. */
  datatype Host = Host(
    stringify: Json -> string,
    parse: string -> Option<Json>,
    encodeUriComponent: string -> string,
    decodeUriComponent: string -> Option<string>)

  /**
   * `JSON.parse(JSON.stringify(v))` gives back `v`. This is stated per value:
   * a number does not survive the text exactly in general (a `JNumber` holds
   * any real), so no runtime round-trips every value.
   */
  ghost predicate ParsesBack(h: Host, v: Json) {
    h.parse(h.stringify(v)) == Some(v)
  }

  /** `decodeURIComponent(encodeURIComponent(s))` gives back `s`. */
  ghost predicate PercentDecodesBack(h: Host, s: string) {
    h.decodeUriComponent(h.encodeUriComponent(s)) == Some(s)
  }

  const EncodeFailedMessage := "Failed to encode as fragment."

  // ----- The URL-safe alphabet (RFC 4648, section 5) -----

  predicate IsUrlSafeChar(c: char) {
    ('A' <= c <= 'Z') || ('a' <= c <= 'z') || ('0' <= c <= '9') || c == '-' || c == '_'
  }

  predicate IsUrlSafeText(s: string) {
    forall k | 0 <= k < |s| :: IsUrlSafeChar(s[k])
  }

  /** `s.replace(/x/g, y)` for single characters `x` and `y`. */
  function ReplaceAll(s: string, x: char, y: char): (r: string)
    ensures |r| == |s|
    ensures forall k :: 0 <= k < |s| ==> r[k] == if s[k] == x then y else s[k]
  {
    seq(|s|, k requires 0 <= k < |s| => if s[k] == x then y else s[k])
  }

  /** The two substitutions of `toBase64`. */
  function ToUrlAlphabet(s: string): string {
    ReplaceAll(ReplaceAll(s, '+', '-'), '/', '_')
  }

  /** The two substitutions of `fromBase64`. */
  function FromUrlAlphabet(s: string): string {
    ReplaceAll(ReplaceAll(s, '-', '+'), '_', '/')
  }

  /** `s.replace(/=+$/, "")`: drops the trailing run of `=`. */
  function TrimTrailingPad(s: string): string
    decreases |s|
  {
    if |s| > 0 && s[|s| - 1] == '=' then TrimTrailingPad(s[..|s| - 1]) else s
  }

  /** `s + "=".repeat(4 - s.length % 4)` when the length is not a multiple of 4. */
  function Repad(s: string): string {
    var pad := |s| % 4;
    if pad != 0 then s + seq(4 - pad, _ => '=') else s
  }

  // ----- The codec (lib/encoder.ts) -----

  /** `toBase64`: None where `btoa` throws. */
  function ToBase64(s: string): Option<string> {
    match Btoa(s)
    case None => None
    case Some(t) => Some(TrimTrailingPad(ToUrlAlphabet(t)))
  }

  /** `fromBase64`: None where `atob` throws. */
  function FromBase64(s: string): Option<string> {
    Atob(FromUrlAlphabet(Repad(s)))
  }

  /** `encodeUriBase64`: the error is the one it throws when `btoa` rejects the JSON text. */
  function EncodeUriBase64(h: Host, v: Json): (r: Result<string, string>)
    ensures r.Failure? <==> !IsLatin1(h.stringify(v))
    ensures r.Failure? ==> r.error == EncodeFailedMessage
  {
    match ToBase64(h.stringify(v))
    case None => Failure(EncodeFailedMessage)
    case Some(t) => Success(t)
  }

  /** `decodeUriBase64`: every failure of `fromBase64` or `JSON.parse` becomes `[]`. */
  function DecodeUriBase64(h: Host, t: string): Json {
    match FromBase64(t)
    case None => EmptyArray
    case Some(text) =>
      match h.parse(text)
      case None => EmptyArray
      case Some(v) => v
  }

  /** `encodeUriJson` (deprecated). */
  function EncodeUriJson(h: Host, v: Json): string {
    h.encodeUriComponent(h.stringify(v))
  }

  /** `decodeUriJson` (deprecated): a failure of either step becomes `[]`. */
  function DecodeUriJson(h: Host, t: string): Json {
    match h.decodeUriComponent(t)
    case None => EmptyArray
    case Some(text) =>
      match h.parse(text)
      case None => EmptyArray
      case Some(v) => v
  }

  // ----- Properties -----

  /** `fromBase64`'s substitution undoes `toBase64`'s, and the other way round. */
  lemma UrlAlphabetInverse(s: string)
    ensures ('-' !in s && '_' !in s) ==> FromUrlAlphabet(ToUrlAlphabet(s)) == s
    ensures ('+' !in s && '/' !in s) ==> ToUrlAlphabet(FromUrlAlphabet(s)) == s
  {
    if '-' !in s && '_' !in s {
      var r := FromUrlAlphabet(ToUrlAlphabet(s));
      forall k | 0 <= k < |s| ensures r[k] == s[k] {
        assert s[k] != '-' && s[k] != '_';
      }
    }
    if '+' !in s && '/' !in s {
      var r := ToUrlAlphabet(FromUrlAlphabet(s));
      forall k | 0 <= k < |s| ensures r[k] == s[k] {
        assert s[k] != '+' && s[k] != '/';
      }
    }
  }

  /** `Repad` appends exactly `4 - n % 4` `=` when `n % 4 != 0`, and nothing otherwise. */
  lemma RepadShape(s: string)
    ensures |Repad(s)| % 4 == 0
    ensures Repad(s)[..|s|] == s
    ensures |Repad(s)| - |s| == if |s| % 4 == 0 then 0 else 4 - |s| % 4
    ensures forall k :: |s| <= k < |Repad(s)| ==> Repad(s)[k] == '='
  {
  }

  lemma {:induction false} TrimTrailingPadOf(u: string, p: string)
    requires |u| == 0 || u[|u| - 1] != '='
    requires forall k :: 0 <= k < |p| ==> p[k] == '='
    ensures TrimTrailingPad(u + p) == u
    decreases |p|
  {
    if |p| == 0 {
      assert u + p == u;
    } else {
      assert (u + p)[..|u + p| - 1] == u + p[..|p| - 1];
      TrimTrailingPadOf(u, p[..|p| - 1]);
    }
  }

  lemma AlphabetToUrlSafe(t: string)
    requires IsAlphabetText(t)
    ensures IsUrlSafeText(ToUrlAlphabet(t))
  {
  }

  /** The text `toBase64` produces for a byte string: the unpadded body in the URL-safe alphabet. */
  lemma ToBase64Body(s: string)
    requires IsLatin1(s)
    ensures ToBase64(s) == Some(ToUrlAlphabet(Body(ToBytes(s))))
  {
    var b := ToBytes(s);
    var body, pad := Body(b), Padding(|b|);
    BodyAlphabet(b);
    AlphabetToUrlSafe(body);
    var u := ToUrlAlphabet(body);
    assert ToUrlAlphabet(body + pad) == u + pad;
    TrimTrailingPadOf(u, pad);
  }

  /** `toBase64` fails exactly on a character above U+00FF, and otherwise yields only `A-Z a-z 0-9 - _`. */
  lemma ToBase64Alphabet(s: string)
    ensures ToBase64(s).None? <==> exists k :: 0 <= k < |s| && s[k] as int >= 256
    ensures ToBase64(s).Some? ==> IsUrlSafeText(ToBase64(s).value)
  {
    if IsLatin1(s) {
      ToBase64Body(s);
      BodyAlphabet(ToBytes(s));
      AlphabetToUrlSafe(Body(ToBytes(s)));
    }
  }

  /** On n bytes `toBase64` yields 4 * (n / 3) characters plus 0, 2 or 3 for n % 3 = 0, 1, 2. */
  lemma ToBase64Length(s: string)
    requires IsLatin1(s)
    ensures |ToBase64(s).value| == 4 * (|s| / 3) + TailLength(|s| % 3)
    ensures |ToBase64(s).value| % 4 != 1
  {
    ToBase64Body(s);
    BodySize(ToBytes(s));
    BodyTail(ToBytes(s));
  }

  /** Round trip: `fromBase64(toBase64(s)) == s` for every string of byte-sized characters. */
  lemma FromToBase64(s: string)
    requires IsLatin1(s)
    ensures FromBase64(ToBase64(s).value) == Some(s)
  {
    var b := ToBytes(s);
    var body, pad := Body(b), Padding(|b|);
    ToBase64Body(s);
    BodyAlphabet(b);
    BodyTail(b);
    var u := ToUrlAlphabet(body);
    var padded := Repad(u);
    assert padded == u + pad;
    assert FromUrlAlphabet(u + pad) == FromUrlAlphabet(u) + pad;
    UrlAlphabetInverse(body);
    AtobBtoa(s);
  }

  /** Round trip through the fragment codec, for a value whose JSON text `btoa` accepts. */
  lemma DecodeEncodeUriBase64(h: Host, v: Json)
    requires ParsesBack(h, v)
    requires IsLatin1(h.stringify(v))
    ensures EncodeUriBase64(h, v).Success?
    ensures DecodeUriBase64(h, EncodeUriBase64(h, v).value) == v
  {
    FromToBase64(h.stringify(v));
  }

  /** Text holding a character that is neither base64 (of either alphabet), `=` nor whitespace decodes to `[]`. */
  lemma DecodeRejectsForeignChar(h: Host, t: string, k: nat)
    requires k < |t|
    requires !IsUrlSafeChar(t[k]) && !IsBase64Char(t[k]) && t[k] != '=' && !IsAsciiWhitespace(t[k])
    ensures FromBase64(t) == None
    ensures DecodeUriBase64(h, t) == EmptyArray
  {
    var padded := Repad(t);
    RepadShape(t);
    assert padded[k] == t[k];
    var text := FromUrlAlphabet(padded);
    assert text[k] == t[k];
    AtobRejectsForeignChar(text, k);
  }

  /** The default token `"[]"` of the loader is not base64: it decodes to `[]` by failure. */
  lemma DecodeDefaultToken(h: Host)
    ensures DecodeUriBase64(h, "[]") == EmptyArray
  {
    DecodeRejectsForeignChar(h, "[]", 0);
  }

  /** Round trip through the deprecated percent-encoded format. */
  lemma DecodeEncodeUriJson(h: Host, v: Json)
    requires ParsesBack(h, v) && PercentDecodesBack(h, h.stringify(v))
    ensures DecodeUriJson(h, EncodeUriJson(h, v)) == v
  {
  }
}
