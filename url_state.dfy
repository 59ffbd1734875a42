/**
 * lib/urlState.ts: `loadStateFromURL`. The browser's `window.location` is the
 * `Location` argument and `window.history.replaceState` is the `replacement`
 * URL of the result together with the location it leaves behind (`after`).
 */
module UrlState {
  import opened Wrappers
  import opened Encoder
  import opened FormParams
  import Base64

  const PeopleKey: string := "p"
  const ExpenseKey: string := "e"

  /** The parts of `window.location` the loader reads. */
  datatype Location = Location(search: string, hash: string, pathname: string)

  /** `URLStateResult`: the decoded values, not narrowed to `string[]` and `Expense[]`. */
  datatype UrlStateResult = UrlStateResult(people: Json, expenses: Json)

  /** A call's result, the URL it passed to `replaceState` if it did, and the location after the call. */
  datatype Load = Load(state: UrlStateResult, replacement: Option<string>, after: Location)

  /** A query value that is present and not empty (a truthy `get` result). */
  predicate IsFilled(v: Option<string>) {
    v.Some? && v.value != ""
  }

  /** The condition of lib/urlState.ts:21 and :26. */
  predicate HasLegacyQuery(loc: Location) {
    var query := Parse(loc.search);
    loc.search != "" && IsFilled(Get(query, PeopleKey)) && IsFilled(Get(query, ExpenseKey))
  }

  /** The fragment the migration writes: both legacy values re-encoded as base64url, `p` first. */
  function MigratedFragment(h: Host, loc: Location): Result<string, string>
    requires HasLegacyQuery(loc)
  {
    var query := Parse(loc.search);
    match EncodeUriBase64(h, DecodeUriJson(h, Get(query, PeopleKey).value))
    case Failure(e) => Failure(e)
    case Success(people) =>
      match EncodeUriBase64(h, DecodeUriJson(h, Get(query, ExpenseKey).value))
      case Failure(e) => Failure(e)
      case Success(expenses) => Success(Serialize([(PeopleKey, people), (ExpenseKey, expenses)]))
  }

  /** The location after `replaceState` to `pathname + "#" + fragment`: no query, the new fragment. */
  function ReplaceState(loc: Location, fragment: string): Location {
    Location("", "#" + fragment, loc.pathname)
  }

  /** `hash.slice(1)`. */
  function DropFirst(s: string): string {
    if s == [] then [] else s[1..]
  }

  /** `value || "[]"`. */
  function TokenOrDefault(v: Option<string>): string {
    if IsFilled(v) then v.value else "[]"
  }

  /** lib/urlState.ts:47-55: read `p` and `e` from the fragment. */
  function ReadFragment(h: Host, hash: string): UrlStateResult {
    var params := Parse(DropFirst(hash));
    UrlStateResult(DecodeUriBase64(h, TokenOrDefault(Get(params, PeopleKey))),
                   DecodeUriBase64(h, TokenOrDefault(Get(params, ExpenseKey))))
  }

  /** `loadStateFromURL`; a Failure is the error `encodeUriBase64` throws out of the migration. */
  function LoadStateFromUrl(h: Host, loc: Location): (r: Result<Load, string>)
    ensures r.Failure? ==> HasLegacyQuery(loc) && r.error == EncodeFailedMessage
    ensures r.Success? ==> (r.value.replacement.Some? <==> HasLegacyQuery(loc))
    ensures r.Success? ==> r.value.state == ReadFragment(h, r.value.after.hash)
    ensures r.Success? && r.value.replacement.None? ==> r.value.after == loc
    ensures r.Success? && r.value.replacement.Some? ==>
              r.value.after.search == "" && r.value.after.pathname == loc.pathname
              && r.value.replacement.value == loc.pathname + r.value.after.hash
  {
    if HasLegacyQuery(loc) then
      match MigratedFragment(h, loc)
      case Failure(e) => Failure(e)
      case Success(fragment) =>
        var after := ReplaceState(loc, fragment);
        Success(Load(ReadFragment(h, after.hash), Some(loc.pathname + "#" + fragment), after))
    else
      Success(Load(ReadFragment(h, loc.hash), None, loc))
  }

  // ----- Properties -----

  /** A base64url token holds no `&`, so it is a plain form value. */
  lemma UrlSafeIsPlain(t: string)
    requires IsUrlSafeText(t)
    ensures '&' !in t
  {
  }

  /** The fragment written for two tokens reads back as those two tokens. */
  lemma ReadWrittenFragment(p: string, e: string)
    requires '&' !in p && '&' !in e
    ensures var params := Parse(DropFirst("#" + Serialize([(PeopleKey, p), (ExpenseKey, e)])));
            Get(params, PeopleKey) == Some(p) && Get(params, ExpenseKey) == Some(e)
  {
    var pairs := [(PeopleKey, p), (ExpenseKey, e)];
    var text := Serialize(pairs);
    assert DropFirst("#" + text) == text;
    assert IsPlainPair(pairs[0]) && IsPlainPair(pairs[1]);
    ParseSerialize(pairs);
    assert text[0] == 'p';
  }

  /** The fragment written for two tokens is `p=P&e=E`. */
  lemma SerializeTwo(p: string, e: string)
    ensures Serialize([(PeopleKey, p), (ExpenseKey, e)]) == "p=" + p + "&e=" + e
  {
    var pairs := [(PeopleKey, p), (ExpenseKey, e)];
    assert pairs[1..] == [(ExpenseKey, e)];
  }

  /** The migrated URL is `pathname + "#p=" + P + "&e=" + E`, each value re-encoded as base64url. */
  lemma MigrationUrl(h: Host, loc: Location)
    requires HasLegacyQuery(loc)
    requires LoadStateFromUrl(h, loc).Success?
    ensures var query := Parse(loc.search);
            var people := EncodeUriBase64(h, DecodeUriJson(h, Get(query, PeopleKey).value));
            var expenses := EncodeUriBase64(h, DecodeUriJson(h, Get(query, ExpenseKey).value));
            && people.Success? && expenses.Success?
            && LoadStateFromUrl(h, loc).value.replacement
               == Some(loc.pathname + "#" + ("p=" + people.value + "&e=" + expenses.value))
  {
    var query := Parse(loc.search);
    var people := EncodeUriBase64(h, DecodeUriJson(h, Get(query, PeopleKey).value));
    var expenses := EncodeUriBase64(h, DecodeUriJson(h, Get(query, ExpenseKey).value));
    assert people.Success? && expenses.Success?;
    SerializeTwo(people.value, expenses.value);
  }

  /** The token `encodeUriBase64` writes for a value is never empty. */
  lemma EncodedTokenNonEmpty(h: Host, v: Json)
    requires h.stringify(v) != "" && Base64.IsLatin1(h.stringify(v))
    ensures EncodeUriBase64(h, v).Success? && EncodeUriBase64(h, v).value != ""
    ensures IsUrlSafeText(EncodeUriBase64(h, v).value)
  {
    ToBase64Length(h.stringify(v));
    ToBase64Alphabet(h.stringify(v));
  }

  /** The fragment written for two values reads back as those values. */
  lemma ReadEncodedFragment(h: Host, people: Json, expenses: Json)
    requires ParsesBack(h, people) && ParsesBack(h, expenses)
    requires h.stringify(people) != "" && h.stringify(expenses) != ""
    requires Base64.IsLatin1(h.stringify(people)) && Base64.IsLatin1(h.stringify(expenses))
    ensures EncodeUriBase64(h, people).Success? && EncodeUriBase64(h, expenses).Success?
    ensures var p, e := EncodeUriBase64(h, people).value, EncodeUriBase64(h, expenses).value;
            ReadFragment(h, "#" + Serialize([(PeopleKey, p), (ExpenseKey, e)])) == UrlStateResult(people, expenses)
  {
    EncodedTokenNonEmpty(h, people);
    EncodedTokenNonEmpty(h, expenses);
    var p, e := EncodeUriBase64(h, people).value, EncodeUriBase64(h, expenses).value;
    UrlSafeIsPlain(p);
    UrlSafeIsPlain(e);
    ReadWrittenFragment(p, e);
    DecodeEncodeUriBase64(h, people);
    DecodeEncodeUriBase64(h, expenses);
  }

  /** A fragment `#p=encode(P)&e=encode(E)` with no query loads back `(P, E)` without a replacement. */
  lemma FragmentRoundTrip(h: Host, people: Json, expenses: Json, pathname: string)
    requires ParsesBack(h, people) && ParsesBack(h, expenses)
    requires h.stringify(people) != "" && h.stringify(expenses) != ""
    requires Base64.IsLatin1(h.stringify(people)) && Base64.IsLatin1(h.stringify(expenses))
    ensures EncodeUriBase64(h, people).Success? && EncodeUriBase64(h, expenses).Success?
    ensures var p, e := EncodeUriBase64(h, people).value, EncodeUriBase64(h, expenses).value;
            var r := LoadStateFromUrl(h, Location("", "#" + ("p=" + p + "&e=" + e), pathname));
            && r.Success?
            && r.value.replacement == None
            && r.value.state == UrlStateResult(people, expenses)
  {
    ReadEncodedFragment(h, people, expenses);
    var p, e := EncodeUriBase64(h, people).value, EncodeUriBase64(h, expenses).value;
    SerializeTwo(p, e);
  }

  /** A missing or empty key in the fragment reads as `[]`. */
  lemma MissingKeyReadsEmpty(h: Host, hash: string)
    ensures !IsFilled(Get(Parse(DropFirst(hash)), PeopleKey)) ==> ReadFragment(h, hash).people == EmptyArray
    ensures !IsFilled(Get(Parse(DropFirst(hash)), ExpenseKey)) ==> ReadFragment(h, hash).expenses == EmptyArray
  {
    DecodeDefaultToken(h);
  }

  /**
   * A fragment that is one bare word (such as `#invalid-hash-format`, `#p` or
   * `#?x`) loads `([], [])` and does not fail: the word, less a leading `?`, is
   * at most one pair, and that pair has the empty value.
   */
  lemma MalformedFragment(h: Host, word: string, pathname: string)
    requires '&' !in word && '=' !in word
    ensures var r := LoadStateFromUrl(h, Location("", "#" + word, pathname));
            r.Success? && r.value.state == UrlStateResult(EmptyArray, EmptyArray) && r.value.replacement == None
  {
    assert DropFirst("#" + word) == word;
    var body := if |word| > 0 && word[0] == '?' then word[1..] else word;
    assert '&' !in body && '=' !in body;
    IndexOfAbsent(body, '&');
    assert Split(body, '&') == [body];
    assert [body][1..] == [];
    IndexOfAbsent(body, '=');
    assert Parse(word) == ParsePieces([body]);
    assert ParsePieces([body]) == if body == "" then [] else [ParsePair(body)] + ParsePieces([]);
    assert body != "" ==> ParsePair(body) == (body, "");
    MissingKeyReadsEmpty(h, "#" + word);
  }

  /** A legacy query with only `p` is not migrated. */
  lemma PartialLegacyIgnored(h: Host, q: string, hash: string, pathname: string)
    requires '&' !in q
    ensures var r := LoadStateFromUrl(h, Location("?p=" + q, hash, pathname));
            r.Success? && r.value.replacement == None && r.value.state == ReadFragment(h, hash)
  {
    var search := "?p=" + q;
    var body := "p=" + q;
    assert search == "?" + body;
    assert Parse(search) == [("p", q)] by {
      assert Parse(search) == ParsePieces(Split(body, '&'));
      assert '&' !in body;
      ParseOnePiece(body);
      assert "p" + "=" + q == body;
      ParsePlainPair(("p", q));
    }
  }

  /** A legacy query `?p=P&e=E` parses to its two pairs. */
  lemma ParseLegacyQuery(p: string, e: string)
    requires '&' !in p && '&' !in e
    ensures Parse("?" + ("p=" + p + "&e=" + e)) == [(PeopleKey, p), (ExpenseKey, e)]
  {
    var pairs := [(PeopleKey, p), (ExpenseKey, e)];
    SerializeTwo(p, e);
    assert ("?" + Serialize(pairs))[1..] == Serialize(pairs);
    assert IsPlainPair(pairs[0]) && IsPlainPair(pairs[1]);
    ParseSerialize(pairs);
  }

  /**
   * With a legacy query, the returned state is the query's data, whatever the
   * old fragment held. The JSON texts hold no `%`: `get` already decodes the
   * value once, and on such text the second `decodeURIComponent` changes nothing.
   */
  lemma LegacyQueryWins(h: Host, people: Json, expenses: Json, hash: string, pathname: string)
    requires ParsesBack(h, people) && ParsesBack(h, expenses)
    requires '%' !in h.stringify(people) && '%' !in h.stringify(expenses)
    requires PercentDecodesBack(h, h.stringify(people)) && PercentDecodesBack(h, h.stringify(expenses))
    requires h.stringify(people) != "" && h.stringify(expenses) != ""
    requires Base64.IsLatin1(h.stringify(people)) && Base64.IsLatin1(h.stringify(expenses))
    requires var p, e := EncodeUriJson(h, people), EncodeUriJson(h, expenses);
             p != "" && e != "" && '&' !in p && '&' !in e
    ensures var p, e := EncodeUriJson(h, people), EncodeUriJson(h, expenses);
            var r := LoadStateFromUrl(h, Location("?" + ("p=" + p + "&e=" + e), hash, pathname));
            && r.Success?
            && r.value.replacement.Some?
            && r.value.after.search == ""
            && r.value.state == UrlStateResult(people, expenses)
  {
    var p, e := EncodeUriJson(h, people), EncodeUriJson(h, expenses);
    var loc := Location("?" + ("p=" + p + "&e=" + e), hash, pathname);
    ParseLegacyQuery(p, e);
    DecodeEncodeUriJson(h, people);
    DecodeEncodeUriJson(h, expenses);
    assert HasLegacyQuery(loc);
    ReadEncodedFragment(h, people, expenses);
    var tp, te := EncodeUriBase64(h, people).value, EncodeUriBase64(h, expenses).value;
    assert MigratedFragment(h, loc) == Success(Serialize([(PeopleKey, tp), (ExpenseKey, te)]));
  }

  /** Loading again where a load left the location performs no replacement and returns the same state. */
  lemma LoadIdempotent(h: Host, loc: Location)
    requires LoadStateFromUrl(h, loc).Success?
    ensures var first := LoadStateFromUrl(h, loc).value;
            LoadStateFromUrl(h, first.after) == Success(Load(first.state, None, first.after))
  {
    var first := LoadStateFromUrl(h, loc).value;
    if first.replacement.Some? {
      assert !HasLegacyQuery(first.after);
    }
  }

  // ----- The browser window the loader reads and updates -----

  /** `window`: its current location and the URLs passed to `history.replaceState`, oldest first. */
  class Window {
    var location: Location
    var replaced: seq<string>

    constructor(start: Location)
      ensures location == start && replaced == []
    {
      location := start;
      replaced := [];
    }

    /**
     * `loadStateFromURL` against this window: the migration, when it happens,
     * replaces the location before the fragment is read. Both the result and
     * the new state are those of the decision function `LoadStateFromUrl`.
     */
    method LoadFromUrl(h: Host) returns (r: Result<UrlStateResult, string>)
      modifies this
      ensures var l := LoadStateFromUrl(h, old(location));
              && (r.Success? <==> l.Success?)
              && (l.Failure? ==> r.error == l.error && location == old(location) && replaced == old(replaced))
              && (l.Success? ==> r.value == l.value.state && location == l.value.after)
              && (l.Success? && l.value.replacement.None? ==> replaced == old(replaced))
              && (l.Success? && l.value.replacement.Some? ==> replaced == old(replaced) + [l.value.replacement.value])
    {
      if HasLegacyQuery(location) {
        var migrated := MigratedFragment(h, location);
        if migrated.Failure? {
          return Failure(migrated.error);
        }
        replaced := replaced + [location.pathname + "#" + migrated.value];
        location := ReplaceState(location, migrated.value);
      }
      r := Success(ReadFragment(h, location.hash));
    }
  }
}
