# Finance dashboard core, in Dafny

This project models the two pieces of logic in a Telegram Mini App finance
tracker that are not UI code, and proves their properties.

* **`validateInitData`** (`src/lib/telegram.ts`). The server checks the init
  data a Telegram Mini App sends before it trusts the user claim:
  1. A missing or empty `hash` is rejected.
  2. Every `hash` entry is removed.
  3. The remaining names are sorted by UTF-16 code units. Each name becomes a
     line `name=<first value for name>`, and the lines are joined by `\n`.
  4. A secret key is derived from the bot token. The hex HMAC-SHA-256 of that
     data-check string under the key must equal `hash`.
  5. Only then a non-empty `user` value is required, and its JSON parse is
     returned.
* **The dashboard's data pipeline** (`src/app/page.tsx`):
  * the default currency chosen when the transactions arrive: a
    `currencyCounts` object filled by a loop, then scanned by a `for...in`
    loop;
  * the currency filter, the gating of the statistics, and the type filter;
  * pagination with `slice`, `Math.ceil`, and the clamped previous/next buttons.

Modules, one per file:

* `Wrappers`: `Option` and `Result`.
* `Sequences`: `Filter`, `Distinct`, `Map` and their lemmas.
* `Sorting`: insertion sort over any total preorder, and the uniqueness of a
  sorted arrangement.
* `JsStrings`: JS strings as UTF-16 code units, the order of
  `Array.prototype.sort()` without a comparator, and `join`.
* `TelegramInitData`: `URLSearchParams`, the data-check string and the
  validator.
* `Dashboard`: transactions, the property order of a JS object, and the
  choice of the default currency.
* `TransactionView`: filters, statistics gating and pagination.

The primitives the validator calls are fields of a `Crypto` value passed in,
so nothing about them is assumed:

* UTF-8 encoding of a string;
* HMAC-SHA-256 as `hmacSha256(key, message)`;
* hex encoding;
* `JSON.parse`, which yields a value or the text of its syntax error.

Two lemmas assume `Sound` (an HMAC is 32 bytes and hex doubles the length):
`SignedHashMatches` and the round-trip lemma `SignedInitDataAccepted`.
`SecretKey` and `ComputedHash` state their lengths under it.

The code is followed where a paraphrase of it would differ:

* CryptoJS's `HmacSHA256(message, key)` takes the message first. So line 27
  keys the HMAC with `"WebAppData"` and signs the bot token.
* A name that occurs several times is listed once per occurrence by
  `params.keys()`. Every one of its lines carries the first value.
* A `for...in` loop over a plain object visits integer-like keys ("array
  indices") first, in ascending numeric order, and only then the other keys in
  insertion order (section 10.1.11.1 of ECMAScript 2024,
  OrdinaryOwnPropertyKeys). The currency scan therefore breaks ties in that
  order. It is first-occurrence order whenever no currency code is an array
  index (`EnumerationOrderWithoutIndices`). In that case a tie goes to the
  currency seen first (`TieGoesToFirstSeen`).

## Model

| member | source | states |
|---|---|---|
| TelegramInitData.Message | src/lib/telegram.ts:13-39 | the validator's three error messages share the prefix `Invalid initData: `; a JSON failure carries the parser's own message |
| TelegramInitData.Get | src/lib/telegram.ts:11 | `params.get`: null exactly when no entry has the name; otherwise the value of the first entry with that name |
| TelegramInitData.Delete | src/lib/telegram.ts:18 | `params.delete('hash')`: no entry with the name is left, and every other entry is kept as often as it occurred |
| TelegramInitData.Keys | src/lib/telegram.ts:21 | `params.keys()`: one name per entry, in entry order, repeats included; a name is listed exactly when `get` finds a value for it |
| TelegramInitData.GetAfterDelete | src/lib/telegram.ts:18-23 | deleting one name leaves the first value of every other name unchanged |
| TelegramInitData.KeysAfterDelete | src/lib/telegram.ts:18-21 | after the delete, `params.keys()` lists every other name exactly as often as before, and the deleted name never |
| TelegramInitData.SortedKeys | src/lib/telegram.ts:21 | the names are in ascending code-unit order, one per entry that is not `hash`; `hash` never occurs, and every other name occurs once per entry carrying it |
| JsStrings.LessEqIsTotalOrder | src/lib/telegram.ts:21 | the default `sort()` order (code-unit lexicographic) is total, transitive and antisymmetric |
| Sorting.Sort | src/lib/telegram.ts:21 | the result is sorted and is a permutation of the input |
| Sorting.SortedUnique | src/lib/telegram.ts:21 | under an antisymmetric order, two sorted permutations of one multiset are equal, so any correct sort yields this result |
| TelegramInitData.DataCheckLines | src/lib/telegram.ts:22-23 | one line per entry that is not `hash`, as many as there are sorted names |
| TelegramInitData.DataCheckLineAt | src/lib/telegram.ts:21-23 | line `i` is `k=v` for the `i`-th sorted name `k`, which is not `hash`, and `v` is the first value recorded for `k` |
| TelegramInitData.DataCheckString | src/lib/telegram.ts:22-24 | the lines separated by newlines: empty for no lines; otherwise every line i stands at offset (length of the lines before it) + i, a single newline stands right before every line but the first, and the length is that of the lines plus one per gap, so nothing leads or trails |
| JsStrings.JoinPlacement | src/lib/telegram.ts:24 | `join` puts every line at its offset and one separator right before every line but the first |
| JsStrings.JoinSnoc | src/lib/telegram.ts:24 | `join('\n')` puts the separator only between lines: appending a line appends the separator and the line, with no trailing separator |
| JsStrings.JoinLength | src/lib/telegram.ts:24 | the joined string is as long as all lines plus one separator fewer than there are lines |
| TelegramInitData.SecretKey | src/lib/telegram.ts:27 | a 32-byte key (for a sound HMAC) derived from the bot token alone, keyed with `"WebAppData"` |
| TelegramInitData.ComputedHash | src/lib/telegram.ts:30 | 64 hex digits (for sound primitives): the HMAC of the data-check string under the secret key |
| TelegramInitData.ComputedHashIgnoresHashEntries | src/lib/telegram.ts:18-30 | `hash` entries are not signed: the computed hash equals that of the entries left after deleting them |
| TelegramInitData.HasHash | src/lib/telegram.ts:11-13 | `!hash` is false exactly when the first `hash` entry exists and is non-empty; later `hash` entries play no part |
| TelegramInitData.HashMatches | src/lib/telegram.ts:32 | the hash check passes exactly when the first `hash` entry is non-empty and equals the computed hash |
| TelegramInitData.Validate | src/lib/telegram.ts:9-43 | `Hash is missing` exactly when `hash` is absent or empty, whatever else the data holds; `Hash does not match` exactly when it is present but differs from the hex HMAC; success exactly when the hash matches and the first `user` value is non-empty and parses, the parse being the result; a JSON failure only after a match, carrying the parser's message |
| TelegramInitData.ValidateUserChecks | src/lib/telegram.ts:32-40 | the hash check comes first: `User data is missing` exactly when the hash matched and `user` is absent or empty, and a JSON error only after a match |
| TelegramInitData.ValidateAfterHashMatch | src/lib/telegram.ts:32-42 | once the hash matches, the first `user` value of the data as received decides: missing or empty is `User data is missing`, otherwise its parse or the parser's error |
| TelegramInitData.ExtractUser | src/lib/telegram.ts:37-42 | `User data is missing` exactly when `user` is absent or empty; success exactly when it is non-empty and parses, with the parse as result; otherwise a JSON failure carrying the parser's message |
| TelegramInitData.UserSurvivesHashRemoval | src/lib/telegram.ts:18-37 | deleting `hash` does not change the `user` lookup |
| TelegramInitData.GetPermutation | src/lib/telegram.ts:11-37 | with unique names, the value found for a name does not depend on the order of the entries |
| TelegramInitData.KeysPermutation | src/lib/telegram.ts:21 | rearranging the entries rearranges their names |
| TelegramInitData.SortedKeysPermutation | src/lib/telegram.ts:21 | the sorted names do not depend on the order of the entries, even with repeated names |
| TelegramInitData.DataCheckStringPermutation | src/lib/telegram.ts:21-24 | with unique names, every order of the entries yields the same data-check string |
| TelegramInitData.ValidateAgrees | src/lib/telegram.ts:11-42 | two inputs with the same `hash`, computed hash and `user` get the same outcome |
| TelegramInitData.ValidatePermutation | src/lib/telegram.ts:9-43 | with unique names, the order of the entries changes neither the computed hash nor the outcome |
| TelegramInitData.ValidateDependsOnSecretKeyOnly | src/lib/telegram.ts:26-30 | the bot token matters only through the derived secret key |
| TelegramInitData.SignedHashMatches | src/lib/telegram.ts:17-34 | inserting, at any position, a `hash` entry computed over hash-free entries makes the hash check pass, and deleting it gives the entries back |
| TelegramInitData.SignedInitDataAccepted | src/lib/telegram.ts:9-42 | round trip: data signed that way with a non-empty `user` is accepted and yields the parse of `user`, or that parse's error |
| Sequences.Distinct | src/app/page.tsx:99 | `[...new Set(s)]`: exactly the elements of `s`, no more of them than `s` has |
| Sequences.DistinctIsDistinct | src/app/page.tsx:99 | no element occurs twice in it |
| Sequences.DistinctFirstOccurrence | src/app/page.tsx:99 | its elements come in the order of their first occurrence in `s` |
| Dashboard.EnumerationOrder | src/app/page.tsx:111 | the `for...in` order is a permutation of the object's keys |
| Dashboard.EnumerationOrderWithoutIndices | src/app/page.tsx:104-111 | with no integer-like currency code, `for...in` visits the currencies in first-occurrence order |
| Dashboard.FirstMostFrequentUnique | src/app/page.tsx:109-116 | at most one position is the first of the largest count |
| Dashboard.FirstMostFrequentIsMaximal | src/app/page.tsx:109-116 | the scan's winner has the largest count among all the transactions' currencies |
| Dashboard.TieGoesToFirstSeen | src/app/page.tsx:109-116 | with no integer-like currency code, the winner first occurs no later than any transaction whose currency has the same count |
| Dashboard.CountCurrencies | src/app/page.tsx:104-107 | the object's keys in creation order are the distinct currencies in first-occurrence order; each key's count is the number of transactions in that currency, and only currencies that occur are keys |
| Dashboard.MostFrequentCurrency | src/app/page.tsx:109-116 | the strict `>` scan yields the key at the first position with the largest count (every count before it smaller, none after it larger), or `''` when there are no keys |
| Dashboard.SelectDefaultCurrency | src/app/page.tsx:98-121 | no data selects `'all'`; a single currency is selected directly; otherwise the first most frequent key in `for...in` order, or the first currency when that key is `''`; a selection is always a currency of the data |
| TransactionView.FilterByCurrency | src/app/page.tsx:152-155 | `'all'` returns the list; any other selection keeps each transaction in exactly that currency as often as it occurs, and no other |
| TransactionView.FilterByCurrencyAppend | src/app/page.tsx:152-155 | the currency filter keeps the list's order (it distributes over concatenation) |
| TransactionView.FilterByNullCurrency | src/app/page.tsx:54 | before a currency is selected (`null`), the filter keeps nothing |
| TransactionView.FilterByType | src/app/page.tsx:168-170 | `'all'` returns the list; any other value keeps each transaction whose kind has that name as often as it occurs, and no other |
| TransactionView.FilterByTypeAppend | src/app/page.tsx:168-170 | the type filter keeps the list's order |
| TransactionView.StatsData | src/app/page.tsx:159-162 | nothing when all currencies are shown, otherwise the currency-filtered list itself |
| TransactionView.StatsAreSingleCurrency | src/app/page.tsx:159-162 | the statistics get nothing when all currencies are shown, and otherwise exactly the transactions of the selected currency |
| TransactionView.Slice | src/app/page.tsx:192 | `slice(start, end)`: never longer than the list, nor than `end - start` when `start <= end`; for `0 <= start <= end`, the items between the two positions clamped to the length |
| TransactionView.PageItems | src/app/page.tsx:190-193 | page `p >= 1` is the list from `(p-1)*10` to `p*10`, both clamped to its length; every page has at most 10 items |
| TransactionView.TotalPages | src/app/page.tsx:195 | the fewest pages of 10 that hold `n` items (the ceiling of `n/10`) |
| TransactionView.PagesUpToPrefix | src/app/page.tsx:190-195 | pages 1 to `k`, one after another, are the first `10k` items (or the whole list) |
| TransactionView.PagesCoverList | src/app/page.tsx:190-195 | pages 1 to `totalPages`, one after another, give back the whole list |
| TransactionView.PagesBeyondLastAreEmpty | src/app/page.tsx:190-195 | a page after the last one is empty |
| TransactionView.PreviousPage | src/app/page.tsx:340 | `Math.max(1, p - 1)`: from a page `p > 1` it is `p-1`, otherwise 1 |
| TransactionView.NextPage | src/app/page.tsx:342 | `Math.min(totalPages, p + 1)`: below the last page it is `p+1`, otherwise `totalPages` |
| TransactionView.NavigationStaysInRange | src/app/page.tsx:340-342 | from a page in `[1, totalPages]`, both buttons lead to a page in `[1, totalPages]` |

## Left out

- `URLSearchParams` parsing and percent-decoding are not modelled. The validator takes the already decoded entries.
- SHA-256, HMAC and hex encoding are not modelled (CryptoJS is foreign code). Their cryptographic strength, and whether a forged hash can match, cannot be stated here.
- CryptoJS's UTF-8 encoding of lone surrogates is not modelled. `utf8` is just a parameter.
- Timing is not modelled. The comparison is a plain `!==` and is modelled as string equality.
- `JSON.parse` is a parameter. Its syntax errors surface as `UserNotJson` with the parser's message, not as an `Invalid initData` error.
- TelegramInitData.Line: the `null` rendering it uses for a name without a value never occurs. The names come from the entries themselves.
- The API route (`src/app/api/transactions/route.ts`), the database pool (`src/lib/db.ts`) and the chart components are not part of this model.
- The floating-point statistics of `page.tsx` (income, expenses, balance, category and monthly totals) are not modelled.
- The `Date`-based time-range filter is not modelled because it depends on the clock. The currency filter is stated for whatever list it receives.
- The sort of the displayed list by timestamp or amount (`page.tsx` lines 172-184) is not modelled. Pagination is stated for any list.
- React state, effects, `fetch`, haptic feedback and JSX are not modelled.
- Resetting to page 1 when a filter changes (line 197) is not modelled.
- Dashboard.CountCurrencies: a currency spelled like an inherited `Object.prototype` member (for example `__proto__`) is treated as an ordinary key.
- TransactionView.TotalPages: computed with integer division. It equals `Math.ceil` on the double `n/10` for every list length a browser can hold.
- Amounts are kept as real numbers but never used. `kind` is the two-valued type the page's `Transaction` interface declares.
