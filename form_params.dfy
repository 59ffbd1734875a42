/**
 * The part of `URLSearchParams` (application/x-www-form-urlencoded parsing and
 * serialising, WHATWG URL Standard section 5) that the loader relies on: split
 * on `&`, skip empty pieces, split each piece at its first `=`, look a name up.
 * The decoding of `+` and `%XX` in names and values is not part of this model.
 */
module FormParams {
  import opened Wrappers

  type Pair = (string, string)

  /** The position of the first `c` in `s`, or `|s|` when there is none. */
  function IndexOf(s: string, c: char): (k: nat)
    ensures k <= |s|
    ensures k < |s| ==> s[k] == c
    ensures forall j :: 0 <= j < k ==> s[j] != c
    decreases |s|
  {
    if s == [] then 0
    else if s[0] == c then 0
    else 1 + IndexOf(s[1..], c)
  }

  /** `s.split(sep)`. */
  function Split(s: string, sep: char): (parts: seq<string>)
    ensures |parts| >= 1
    decreases |s|
  {
    var k := IndexOf(s, sep);
    if k == |s| then [s] else [s[..k]] + Split(s[k + 1..], sep)
  }

  /** A name and a value split at the first `=`; a piece without `=` has the empty value. */
  function ParsePair(piece: string): Pair
  {
    var k := IndexOf(piece, '=');
    if k == |piece| then (piece, "") else (piece[..k], piece[k + 1..])
  }

  function ParsePieces(pieces: seq<string>): seq<Pair>
  {
    if pieces == [] then []
    else if pieces[0] == "" then ParsePieces(pieces[1..])
    else [ParsePair(pieces[0])] + ParsePieces(pieces[1..])
  }

  /** `new URLSearchParams(init)`: a leading `?` is dropped. */
  function Parse(init: string): seq<Pair>
  {
    var body := if |init| > 0 && init[0] == '?' then init[1..] else init;
    ParsePieces(Split(body, '&'))
  }

  /** `params.get(name)`: the value of the first pair with that name, None for `null`. */
  function Get(pairs: seq<Pair>, name: string): (r: Option<string>)
    ensures r.None? <==> forall k :: 0 <= k < |pairs| ==> pairs[k].0 != name
    ensures r.Some? ==> exists k :: 0 <= k < |pairs| && pairs[k] == (name, r.value)
                                  && forall j :: 0 <= j < k ==> pairs[j].0 != name
  {
    if pairs == [] then None
    else if pairs[0].0 == name then Some(pairs[0].1)
    else
      var r := Get(pairs[1..], name);
      assert r.Some? ==> exists k :: 0 <= k < |pairs| && pairs[k] == (name, r.value)
                                    && forall j :: 0 <= j < k ==> pairs[j].0 != name by {
        if r.Some? {
          var k :| 0 <= k < |pairs[1..]| && pairs[1..][k] == (name, r.value)
                   && forall j :: 0 <= j < k ==> pairs[1..][j].0 != name;
          assert pairs[k + 1] == (name, r.value);
          assert forall j :: 0 <= j < k + 1 ==> pairs[j].0 != name by {
            forall j | 0 <= j < k + 1 ensures pairs[j].0 != name {
              if j > 0 { assert pairs[j] == pairs[1..][j - 1]; }
            }
          }
        }
      }
      r
  }

  /** `params.toString()` over values that need no escaping. */
  function Serialize(pairs: seq<Pair>): string
  {
    if pairs == [] then ""
    else if |pairs| == 1 then pairs[0].0 + "=" + pairs[0].1
    else pairs[0].0 + "=" + pairs[0].1 + "&" + Serialize(pairs[1..])
  }

  /** A pair `Serialize` writes and `Parse` reads back unchanged. */
  predicate IsPlainPair(p: Pair) {
    p.0 != "" && '&' !in p.0 && '=' !in p.0 && '&' !in p.1
  }

  lemma SplitAt(a: string, b: string, sep: char)
    requires sep !in a
    ensures Split(a + [sep] + b, sep) == [a] + Split(b, sep)
  {
    var s := a + [sep] + b;
    SeparatorAt(a, b, sep);
    assert s[..|a|] == a && s[|a| + 1..] == b;
  }

  lemma SeparatorAt(a: string, b: string, sep: char)
    requires sep !in a
    ensures IndexOf(a + [sep] + b, sep) == |a|
  {
    var s := a + [sep] + b;
    assert s[|a|] == sep;
    assert forall j :: 0 <= j < |a| ==> s[j] == a[j];
  }

  lemma ParsePlainPair(p: Pair)
    requires IsPlainPair(p)
    ensures ParsePair(p.0 + "=" + p.1) == p
  {
    var piece := p.0 + "=" + p.1;
    assert piece[|p.0|] == '=';
    assert forall j :: 0 <= j < |p.0| ==> piece[j] == p.0[j];
    assert piece[..|p.0|] == p.0 && piece[|p.0| + 1..] == p.1;
  }

  lemma IndexOfAbsent(s: string, c: char)
    requires c !in s
    ensures IndexOf(s, c) == |s|
  {
  }

  /** Text with no `&` (and no leading `?`) is one pair. */
  lemma ParseOnePiece(text: string)
    requires text != [] && text[0] != '?' && '&' !in text
    ensures Parse(text) == [ParsePair(text)]
  {
    IndexOfAbsent(text, '&');
    assert Split(text, '&') == [text];
    assert [text][1..] == [];
    assert ParsePieces([text]) == [ParsePair(text)] + ParsePieces([]);
  }

  /** Parsing what `Serialize` wrote gives back the pairs. */
  lemma {:induction false} ParseSerialize(pairs: seq<Pair>)
    requires forall k :: 0 <= k < |pairs| ==> IsPlainPair(pairs[k])
    ensures ParsePieces(Split(Serialize(pairs), '&')) == pairs
    decreases |pairs|
  {
    if pairs == [] {
    } else {
      var head := pairs[0].0 + "=" + pairs[0].1;
      ParsePlainPair(pairs[0]);
      if |pairs| == 1 {
        assert IndexOf(head, '&') == |head|;
      } else {
        SplitAt(head, Serialize(pairs[1..]), '&');
        assert Serialize(pairs) == head + "&" + Serialize(pairs[1..]);
        ParseSerialize(pairs[1..]);
      }
    }
  }
}
