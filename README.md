# halfsies in Dafny

halfsies is a small expense-splitting web app. The app keeps two lists: the
people, and the expenses. Each expense has:

- a payer index `pb`;
- the indices `i` of the people who share it;
- an amount `a`;
- optionally, one percentage `s` per sharer.

From these lists the app computes a signed balance for each person. It then
computes a short list of transfers that settles every balance. The whole
state is stored in the page URL. The current format is a `#p=…&e=…`
fragment, where each value is URL-safe base64 of the JSON text. An older
`?p=…&e=…` query holds percent-encoded JSON, and is migrated to the fragment
format on load.

This project models that logic and proves properties of it.

- `base64.dfy` (module `Base64`) models the browser's `btoa` and `atob`, the
  way `lib/encoder.ts` uses them. `btoa` works on Latin-1 characters, taken as
  bytes. `atob` follows the forgiving-base64 decode of the WHATWG Infra Standard: it
  drops ASCII whitespace and strips a final `=` or `==`.
- `encoder.dfy` (module `Encoder`) models `lib/encoder.ts`: `toBase64`,
  `fromBase64`, `encodeUriBase64`, `decodeUriBase64`, `encodeUriJson` and
  `decodeUriJson`. The JSON functions and the URI-component functions belong
  to the JavaScript runtime. They are function-valued fields of a `Host`. What
  the codec relies on them for is stated per value, for example "parse
  inverts stringify on this value". The lemmas require it for the values
  they are about.
- `form_params.dfy` (module `FormParams`) models the part of
  `URLSearchParams` the loader uses:
  - splitting on `&`;
  - splitting each piece at its first `=`;
  - first-match `get`;
  - `toString` on values that need no escaping.
- `url_state.dfy` (module `UrlState`) models `loadStateFromURL` of
  `lib/urlState.ts`.
  - `LoadStateFromUrl` is the decision as a function of a `Location` record
    `(search, hash, pathname)`. It returns the decoded state, the URL passed
    to `history.replaceState` (if any) and the location after the call.
  - The class `Window` holds the location and the list of replaced URLs.
    Its method `LoadFromUrl` performs the same load as a state change.
- `ledger.dfy` (module `Ledger`) models the `Expense` record and the
  `balances` computation of `src/App.tsx`. `ComputeBalances` updates an
  array in place, as the source does. It is proved equal to the fold
  `Balances`, and the properties are proved about that fold.
- `settlement.dfy` (module `Settlement`) models the `settlements` computation
  of `src/App.tsx`.
  - `Partition` splits the balances into creditors and debtors.
  - The stable sort is the pure insertion sort `SortDescending`.
  - `MatchLoop` is the two-cursor `while` loop, run on arrays of entries whose
    amounts it decreases in place.
  - The loop is proved equal to the recursive specification `Match`. The
    properties of the plan are proved about `Match`.
- `edits.dfy` (module `Edits`) models `addPerson` (with JavaScript's
  `String.prototype.trim`), `removePerson`, `removeExpense`, `addExpense`, the
  form's fresh draft, and the guard on the add-expense button.
- `wrappers.dfy` holds `Option` and `Result`.

Amounts are exact reals. The `=== 0` tests of the settlement loop are exact
equality on them.

The code behaves as follows where a reader might expect otherwise, and the
model follows the code:

- `encodeUriBase64` passes the JSON text straight to `btoa`. Text with a
  character above U+00FF therefore fails with "Failed to encode as fragment."
  (lib/encoder.ts:22-29). It is not encoded as UTF-8.
- `decodeUriBase64` hands the Latin-1 text that `atob` returns straight to
  `JSON.parse`. There is no UTF-8 decoding step.
- During migration, a legacy value that does not decode becomes `[]`
  (`decodeUriJson`), and that `[]` is migrated. The migration is not skipped.
- An `encodeUriBase64` failure during migration escapes from
  `loadStateFromURL` (lib/urlState.ts:29-36). The loader does not always
  return. `LoadStateFromUrl` returns it as `Failure`.
- `removePerson` does not renumber the indices above the removed person. The
  model keeps this behaviour, and under Findings it also gives the renumbering
  version.

## Model

| member | source | states |
|---|---|---|
| Base64.Btoa | lib/encoder.ts:3 | `btoa` fails exactly when some character is above U+00FF |
| Base64.FromBytesToBytes | lib/encoder.ts:3 | taking Latin-1 characters as bytes loses nothing: the bytes convert back to the same text |
| Base64.BodyAlphabet | lib/encoder.ts:3 | the unpadded encoding uses only the 64 characters of the standard alphabet |
| Base64.BodySize | lib/encoder.ts:3 | the unpadded encoding is 4 characters per whole group of 3 bytes, then 0, 2 or 3 for the 0, 1 or 2 bytes left |
| Base64.BodyTail | lib/encoder.ts:3-6 | so the unpadded length modulo 4 is 0, 2 or 3, never 1 |
| Base64.EncodedShape | lib/encoder.ts:3 | a `btoa` result has a length that is a multiple of 4 and holds no whitespace |
| Base64.StripEncodedPadding | lib/encoder.ts:6 | removing the trailing `=` of a `btoa` result leaves exactly the unpadded encoding |
| Base64.DecodeGroup | lib/encoder.ts:15 | four characters of a group decode back to its three bytes, ahead of whatever follows |
| Base64.DecodeTail | lib/encoder.ts:15 | the 2 or 3 characters of a final partial group decode back to its 1 or 2 bytes |
| Base64.DecodeBody | lib/encoder.ts:15 | decoding the unpadded encoding of any bytes gives those bytes back |
| Base64.AtobEncoded | lib/encoder.ts:3-15 | `atob` of the `btoa` encoding of any bytes succeeds and returns them |
| Base64.AtobBtoa | lib/encoder.ts:3-15 | `atob(btoa(s)) == s` for every string `btoa` accepts |
| Base64.AtobRejectsForeignChar | lib/encoder.ts:15-19 | `atob` fails on text holding a character that is not in the alphabet, not `=` and not ASCII whitespace |
| Encoder.ReplaceAll | lib/encoder.ts:4-5 | a global single-character replace changes every occurrence and nothing else, and keeps the length |
| Encoder.UrlAlphabetInverse | lib/encoder.ts:4-18 | the substitution `-`/`_` → `+`/`/` undoes `+`/`/` → `-`/`_`, and the other way round, on text free of the target characters |
| Encoder.RepadShape | lib/encoder.ts:12-13 | re-padding keeps the text as a prefix, appends only `=`, exactly `4 - len % 4` of them when `len % 4 != 0` and none otherwise, and reaches a multiple of 4 |
| Encoder.TrimTrailingPadOf | lib/encoder.ts:6 | removing `/=+$/` from text that does not end in `=`, followed by any run of `=`, gives back that text |
| Encoder.ToBase64Alphabet | lib/encoder.ts:2-7 | `toBase64` fails exactly when a character is above U+00FF; otherwise its output uses only `A-Z a-z 0-9 - _`, so it never holds `+`, `/` or `=` |
| Encoder.ToBase64Length | lib/encoder.ts:2-7 | on n characters `toBase64` has length 4·⌊n/3⌋ + (0, 2, 3) for n mod 3 = (0, 1, 2), never 1 modulo 4 |
| Encoder.FromToBase64 | lib/encoder.ts:2-20 | `fromBase64(toBase64(s)) == s` for every string of characters up to U+00FF |
| Encoder.EncodeUriBase64 | lib/encoder.ts:22-29 | `encodeUriBase64` fails exactly when the JSON text has a character above U+00FF, and the error is "Failed to encode as fragment." |
| Encoder.DecodeEncodeUriBase64 | lib/encoder.ts:22-39 | for a value whose JSON text parses back to it and has no character above U+00FF, encoding succeeds and decoding the token gives the value back |
| Encoder.DecodeRejectsForeignChar | lib/encoder.ts:31-38 | a token holding a character that neither alphabet has makes `fromBase64` fail, and `decodeUriBase64` returns `[]` instead of throwing |
| Encoder.DecodeDefaultToken | lib/encoder.ts:31-38 | the fallback token `"[]"` decodes to `[]`, whatever the JSON functions do |
| Encoder.DecodeEncodeUriJson | lib/encoder.ts:44-57 | for a value whose JSON text parses back to it and survives percent-encoding, `decodeUriJson(encodeUriJson(v)) == v` |
| FormParams.IndexOf | lib/urlState.ts:48 | the position found is that of the first occurrence, or the length when there is none |
| FormParams.Get | lib/urlState.ts:49-50 | `get` is absent exactly when no pair has the name; otherwise it is the value of the first pair with that name |
| FormParams.ParseSerialize | lib/urlState.ts:28-48 | parsing what `toString` wrote for plain pairs gives the same pairs back, in order |
| FormParams.ParseOnePiece | lib/urlState.ts:48 | text without `&` or a leading `?` parses as a single pair |
| UrlState.LoadStateFromUrl | lib/urlState.ts:19-56 | a history replacement happens exactly when the query is non-empty and has non-empty `p` and `e`; the state is read from the fragment of the location after it; the replaced location has no query and the same path, and the URL is the path followed by the new fragment; with no replacement the location is unchanged; the only failure is the encoding error of the migration |
| UrlState.Window.LoadFromUrl | lib/urlState.ts:19-56 | the load as a change to the window: returns the state `LoadStateFromUrl` returns, moves the location to the one after the call, and records at most one replaced URL |
| UrlState.MigrationUrl | lib/urlState.ts:28-43 | the replacement URL is the path, then `#p=`, the re-encoded people, `&e=` and the re-encoded expenses, in that order |
| UrlState.UrlSafeIsPlain | lib/urlState.ts:28-36 | a base64url token holds no `&`, so the pair parser never splits it |
| UrlState.SerializeTwo | lib/urlState.ts:42 | the two parameters serialise as `p=…&e=…` |
| UrlState.ReadWrittenFragment | lib/urlState.ts:47-50 | a fragment written from two `&`-free values reads back as those two values |
| UrlState.EncodedTokenNonEmpty | lib/urlState.ts:29-36 | an encodable value's token is non-empty and URL-safe, so it counts as present when read back |
| UrlState.ReadEncodedFragment | lib/urlState.ts:47-55 | reading a fragment made of the tokens of two values gives back those two values, when each value's non-empty Latin-1 JSON text parses back to it |
| UrlState.FragmentRoundTrip | lib/urlState.ts:47-55 | with an empty query, `#p=encode(P)&e=encode(E)` loads as `(P, E)` with no replacement, when each value's non-empty Latin-1 JSON text parses back to it |
| UrlState.MissingKeyReadsEmpty | lib/urlState.ts:49-55 | a missing or empty `p` or `e` in the fragment reads as `[]` |
| UrlState.MalformedFragment | lib/urlState.ts:47-55 | with an empty query, a fragment that is any single word without `=` or `&` (such as `#invalid-hash-format`, `#p` or `#?x`) loads as `([], [])` with no replacement |
| UrlState.PartialLegacyIgnored | lib/urlState.ts:21-26 | a query holding only `p` causes no migration; the state comes from the fragment |
| UrlState.ParseLegacyQuery | lib/urlState.ts:22-24 | `?p=…&e=…` parses as the pairs `p` and `e`, dropping the `?` |
| UrlState.LegacyQueryWins | lib/urlState.ts:21-55 | a legacy query with both keys is migrated, leaves no query behind, and the state is the legacy data, whatever fragment was there before, when each value's JSON text parses back to it, survives percent-encoding, is non-empty Latin-1 text without `%`, and its percent-encoded token is non-empty and holds no `&` |
| UrlState.LoadIdempotent | lib/urlState.ts:21-42 | loading again from where a load left the location makes no replacement and returns the same state |
| Ledger.DebitAt | src/App.tsx:76-78 | the `forEach` lowers each person's balance by the sum of that person's shares, and leaves every other entry as it was |
| Ledger.DebitInPlace | src/App.tsx:76-78 | the in-place `forEach` leaves the array equal to the debit fold of its old contents |
| Ledger.ApplyInPlace | src/App.tsx:70-81 | one iteration of the `for` loop leaves the array equal to one step of the fold |
| Ledger.ComputeBalances | src/App.tsx:66-84 | the in-place computation returns `Balances`, the fold of the expenses over `people.length` zeros |
| Ledger.BalanceOf | src/App.tsx:66-84 | each person's balance is what the person paid minus what the person owes over all expenses |
| Ledger.SumPercentParts | src/App.tsx:73 | the percentage shares add up to (sum of the percentages) / 100 × `a` |
| Ledger.SumEqualParts | src/App.tsx:74 | `n` equal parts of `a / n` add up to `a` when `n > 0` |
| Ledger.SharesSum | src/App.tsx:71-74 | the shares of an expense with sharers, and either no usable percentages or percentages adding up to 100, add up to its amount |
| Ledger.CreditSum | src/App.tsx:80 | crediting one person raises the total of the balances by that amount |
| Ledger.DebitSum | src/App.tsx:76-78 | the debits lower the total by the sum of the shares |
| Ledger.ApplySum | src/App.tsx:69-81 | one expense changes the total of the balances by its amount minus the sum of its shares |
| Ledger.BalancesSum | src/App.tsx:66-84 | the balances add up to the surplus: over all expenses, amount minus the sum of the shares |
| Ledger.SurplusZero | src/App.tsx:66-84 | expenses whose shares add up to their amounts leave no surplus |
| Ledger.ZeroSum | src/App.tsx:66-84 | with valid indices, non-empty sharers, and no usable percentages or percentages adding up to 100, the balances add up to 0 |
| Settlement.Creditors | src/App.tsx:91-92 | every creditor entry has a positive amount |
| Settlement.Debtors | src/App.tsx:91-93 | every debtor entry has a positive amount |
| Settlement.Partition | src/App.tsx:91-94 | the `forEach` returns exactly `Creditors` and `Debtors` |
| Settlement.CreditorOf | src/App.tsx:92 | each person with a positive balance is a creditor with that name and amount |
| Settlement.CreditorFrom | src/App.tsx:92 | each creditor is some person with a positive balance, under that person's name and with that balance |
| Settlement.DebtorOf | src/App.tsx:93 | each person with a negative balance is a debtor with that name and amount `-b` |
| Settlement.DebtorFrom | src/App.tsx:93 | each debtor is some person with a negative balance, under that person's name and with amount `-b` |
| Settlement.PartitionTotal | src/App.tsx:91-94 | total credit minus total debt equals the sum of the balances |
| Settlement.PartitionCount | src/App.tsx:91-94 | zero balances are dropped: there are as many entries as non-zero balances |
| Settlement.InsertSorted | src/App.tsx:96-97 | inserting into a descending list keeps it descending |
| Settlement.SortDescendingSorted | src/App.tsx:96-97 | the sort orders the entries by amount, largest first |
| Settlement.SortDescendingPermutes | src/App.tsx:96-97 | the sort is a permutation of its input |
| Settlement.SortDescendingStable | src/App.tsx:96-97 | the sort is stable: the entries with any one amount keep their input order (B before C on a tie) |
| Settlement.SortDescendingTotal | src/App.tsx:96-97 | sorting keeps the total amount |
| Settlement.SortDescendingPositive | src/App.tsx:96-97 | sorting keeps every amount positive |
| Settlement.Min | src/App.tsx:107 | `Math.min` returns one of its arguments, at most both |
| Settlement.TakeFrom | src/App.tsx:111-115 | lowering an entry in place and moving the cursor past it when it reaches exactly 0 leaves the array, from the new cursor, equal to `Remaining`, and the entries before the cursor unchanged |
| Settlement.Round | src/App.tsx:105-115 | one iteration emits the step that `Match` puts first, leaves the rest of `Match` on the arrays from the new cursors, advances at least one cursor, and leaves the entries before the cursors unchanged |
| Settlement.MatchLoop | src/App.tsx:101-118 | the `while` loop returns the transfers of `Match` on the sorted lists |
| Settlement.Settlements | src/App.tsx:87-119 | the whole computation returns `Plan` |
| Settlement.MatchWithin | src/App.tsx:104-106 | every round uses a creditor and a debtor position inside the lists |
| Settlement.MatchNames | src/App.tsx:105-109 | every transfer goes from the debtor at its debtor position to the creditor at its creditor position, by name |
| Settlement.MatchPositive | src/App.tsx:107-109 | with positive entries, every transfer moves a positive amount |
| Settlement.MatchCount | src/App.tsx:104-116 | with either list empty there is no transfer; otherwise there are at most `|creditors| + |debtors| - 1` |
| Settlement.MatchReceives | src/App.tsx:104-116 | no creditor receives more than its credit, and each receives exactly its credit when the two totals are equal |
| Settlement.MatchPays | src/App.tsx:104-116 | no debtor pays more than its debt, and each pays exactly its debt when the two totals are equal |
| Settlement.TransfersAt | src/App.tsx:109 | the transfers are the rounds' transfers, in order |
| Settlement.SortedPosition | src/App.tsx:96-97 | every creditor or debtor has a position in the sorted list |
| Settlement.SortedFacts | src/App.tsx:91-97 | the sorted lists have positive amounts, and credit minus debt is the sum of the balances |
| Settlement.PlanPositive | src/App.tsx:87-119 | every transfer of the plan has a positive amount |
| Settlement.PlanCount | src/App.tsx:87-119 | the plan is empty, or has fewer transfers than there are people with a non-zero balance |
| Settlement.PlanParties | src/App.tsx:87-119 | every transfer goes from a person with a negative balance to a person with a positive balance |
| Settlement.PlanReceives | src/App.tsx:87-119 | a person who is owed money receives at most the balance, and exactly the balance when the balances add up to 0 |
| Settlement.PlanPays | src/App.tsx:87-119 | a person who owes money pays at most the debt, and exactly the debt when the balances add up to 0 |
| Settlement.ExpensesSettle | src/App.tsx:66-119 | when every expense shares out exactly its amount, the plan settles every person's creditor or debtor entry in full |
| Settlement.TotalOfInsert | src/App.tsx:96-97 | inserting an entry adds its amount to the total under its name and nothing under other names |
| Settlement.SortDescendingTotalOf | src/App.tsx:96-97 | sorting keeps the total amount under every name |
| Settlement.PartitionNamed | src/App.tsx:91-94 | with distinct names, the credit under a person's name is the positive balance, and the debt under it the negative balance, or 0 |
| Settlement.MatchByName | src/App.tsx:104-116 | the loop pays each name at most the credit under it and takes at most the debt under it, and exactly those when the two totals are equal |
| Settlement.PlanSettlesPerson | src/App.tsx:87-119 | with distinct names, the plan pays each person at most the positive balance and takes at most the debt; when the balances add up to 0, exactly those, so received minus sent is the balance |
| Settlement.ExpensesSettleByName | src/App.tsx:66-119 | with distinct names and every expense sharing out exactly its amount, what each person receives minus what the person sends is the person's balance |
| Settlement.PlanExample | src/App.tsx:87-119 | balances 200, −100, −100 for A, B, C settle as B pays A 100, then C pays A 100: the tied debtors keep person order because the sort is stable |
| Edits.TrimStart | src/App.tsx:164-165 | the leading part `trim` removes is whitespace, and what is left is a suffix that is empty or starts with a non-whitespace character |
| Edits.TrimEnd | src/App.tsx:164-165 | the trailing part `trim` removes is whitespace, and what is left is a prefix that is empty or ends with a non-whitespace character |
| Edits.TrimSlice | src/App.tsx:164-165 | the trimmed name is a slice of the input, with only whitespace outside it and none at its ends |
| Edits.TrimIdempotent | src/App.tsx:164-165 | trimming twice is trimming once |
| Edits.TrimBlank | src/App.tsx:164-165 | a name trims to nothing exactly when it is all whitespace |
| Edits.AddPerson | src/App.tsx:163-168 | adding a person keeps every existing person at the same index |
| Edits.AddPersonBlank | src/App.tsx:163-168 | a blank name adds nobody; any other name adds one person at the end, under the trimmed name |
| Edits.AddPersonBalances | src/App.tsx:163-168 | after adding a person, every expense is still valid, everyone else's balance is unchanged, and the newcomer's balance is 0 |
| Edits.FilterIndex | src/App.tsx:172 | the index filter drops exactly the element at that index, or nothing when there is none |
| Edits.Without | src/App.tsx:171 | the sharers filter keeps exactly the sharers other than the removed index |
| Edits.WithoutAppend | src/App.tsx:171 | the sharers filter works piece by piece, in order, and keeps a single index exactly when it is not the removed one, so order and repeats are kept |
| Edits.NotPaidBy | src/App.tsx:171 | the payer filter keeps exactly the expenses the removed person did not pay |
| Edits.NotPaidByAppend | src/App.tsx:171 | the payer filter works piece by piece, in order |
| Edits.NotPaidBySingle | src/App.tsx:171 | the payer filter keeps a single expense exactly when the removed person did not pay it |
| Edits.RemovePersonAsWritten | src/App.tsx:170-173 | `removePerson` as written: one person fewer, as many expenses as the person did not pay, and no remaining expense names the removed index as payer or sharer |
| Edits.RemovePersonAsWrittenKeeps | src/App.tsx:170-173 | as written, the expenses left are exactly the ones the person did not pay, each with the person dropped from its sharers |
| Edits.RemovePersonDangles | src/App.tsx:170-173 | for people A, B, C and one expense shared by all three, removing B leaves index 2 in a list of two people |
| Edits.RenumberKeepsName | src/App.tsx:170-173 | after the removal, the renumbered index of every other person names the same person |
| Edits.RenumberExpenseKeeps | src/App.tsx:170-173 | a surviving expense, renumbered, is valid for the shorter list and names the same payer and sharers |
| Edits.RemovePersonValid | src/App.tsx:170-173 | the renumbering removal keeps every expense valid, and its expenses are exactly the renumbered expenses the removed person did not pay |
| Edits.RemovePerson | src/App.tsx:170-173 | the renumbering removal leaves one person fewer and as many expenses as the person did not pay |
| Edits.RemovalDropsPercentages | src/App.tsx:171 | an expense split by percentage that named the removed person no longer has usable percentages, so its split falls back to equal parts |
| Edits.RemoveExpenseUndoes | src/App.tsx:239-241 | removing an expense keeps the rest valid and takes exactly that expense's effect off every balance |
| Edits.AddExpense | src/App.tsx:229-237 | the draft is appended after the existing expenses, which stay in place |
| Edits.ResetSharers | src/App.tsx:225-227 | when the people change, the draft keeps its name, amount and percentages, and is shared by everyone and paid by person 0 |
| Edits.ResetSharersGuarded | src/App.tsx:225-227 | after the people change, the draft is valid when there is anyone, and the button accepts it exactly when the amount typed is above 0 and there is anyone |
| Edits.NewDraftGuarded | src/App.tsx:218-223 | the fresh draft `NewDraft` (no name, amount 0, shared by everyone, paid by person 0) is valid when there is anyone, and the button refuses it until an amount is entered |
| Edits.AddExpenseKeepsZeroSum | src/App.tsx:338-342 | a draft the guard accepts (amount above 0, at least one sharer) keeps the balances adding up to 0 |

## Left out

- `JSON.stringify` and `JSON.parse`, `encodeURIComponent` and `decodeURIComponent` are not modelled inside. They are fields of a `Host` record. Round-tripping and a non-empty `stringify` are required per value by the lemmas that need them. A number does not survive its JSON text exactly in general, so no value is assumed to round-trip unless stated.
- A `stringify` that throws (cycles, BigInt) is left out, because the model has no such values. This error is raised outside the `try` of `encodeUriBase64`.
- `URLSearchParams` does not decode `+` and `%XX` in names and values here. Because of that, the legacy path's double percent-decoding (`get`, then `decodeURIComponent`) is not modelled. Escaping in `toString` is left out too. Base64url tokens hold no `&` (`UrlState.UrlSafeIsPlain`).
- UrlState.LegacyQueryWins: stated only for JSON texts without `%`. In the program `get` decodes the value once and `decodeUriJson` decodes it again. After the first decode, a `%` not followed by two hex digits (a name such as `50%`) makes `decodeURIComponent` throw, and the value migrates as `[]`. A valid `%XX` (a name such as `%41`) is decoded a second time, which silently changes the text (`["%41"]` migrates as `["A"]`). The model decodes once and captures neither case.
- `window.location` and `window.history` are the `Window` class and the `Location` record. The other fields of a location are not part of this model, and neither is the browser's history stack.
- IEEE-754 arithmetic is not modelled: amounts are exact reals. This leaves out:
  - rounding residue in the settlement loop;
  - the `NaN` that `parseFloat` gives an empty amount field, which `NaN <= 0` lets past the add-expense guard.
- Ledger.ComputeBalances: requires every `pb` and `i` entry to name a person. For an out-of-range index, JavaScript writes outside the array and produces `NaN`. The model does not follow that.
- Ledger.Balances: models `Array(0).fill(a / 0)` as no shares at all, which is what JavaScript computes for an expense with no sharers. The zero-sum lemmas need at least one sharer.
- Settlement.PlanReceives: a transfer names people by name only. Two people with the same name cannot be told apart in the plan, so the lemma is stated for the person's creditor entry, not the person. `Settlement.PlanSettlesPerson` states it per person when the names are distinct.
- Settlement.PlanPays: stated for the person's debtor entry, for the same reason.
- Settlement.ExpensesSettle: stated for the person's creditor or debtor entry, for the same reason. `Settlement.ExpensesSettleByName` states it per person, by name, when the names are distinct.
- `SortDescending` models `Array.prototype.sort` with the comparator `b.amount - a.amount` as a stable insertion sort over values. The in-place sort is not modelled. Only its result matters, and that result is fully determined because the sort is stable.
- `addPerson` also clears the name field. `addExpense` resets the form to `NewDraft`, and the people effect changes it as `ResetSharers` does. The React state, the effects that read the query and push the state (src/App.tsx:46-63), the clipboard button, rendering and the components are not part of this model.
- The encoded-size test of the encoder is a measurement on one value, not a property. It is not part of this model.

## Findings

| source | as written | input that shows it | evidently intended | confidence | as-written member | corrected member |
|---|---|---|---|---|---|---|
| src/App.tsx:170-173 | `removePerson` drops the person from `people` and from every `i` list, but does not lower the indices above it, so later indices point at the next person or past the end | people `[A, B, C]`, one expense paid by 0 and shared by `[0, 1, 2]`; removing index 1 leaves `i = [0, 2]` with only two people | every `pb` and `i` entry above the removed index moves down by one, so each still names the same person | not executed | Edits.RemovePersonDangles | Edits.RemovePersonValid |
