# Property search client: query building and response classification

This project models `searchProperties`, the one function of the property-listing
front end that has behaviour worth stating. It exists twice, in
`src/services/api.ts` and in the untyped `src/services/api.js`. The two copies
do the same thing, so one model covers both. The only difference in behaviour
is on the append line: the TypeScript copy calls `String(value)` itself, while the
JavaScript copy passes the raw value to `URLSearchParams.append`, whose argument
conversion yields the same string for strings and numbers.

The function:

1. walks the caller's filter entries in order and drops every entry whose value is
   `null`, `undefined` or `""`; it appends each other entry as `(key, String(value))`;
2. appends `("page", "1")` only if no `page` pair survived;
3. requests `http://127.0.0.1:8000/api/properties/search?` followed by the
   serialised list;
4. resolves to the parsed body for an ok status (200 to 299, as section 2.2.3 of
   the WHATWG Fetch Standard defines it); rejects with
   `Error("API request failed with status " + status)` for any other status,
   without reading the body; rejects with the very error raised when the request
   or the body parse fails, because the `catch` block logs and rethrows unchanged.

Modules:

- `Wrappers` (`wrappers.dfy`): `Option`.
- `Decimal` (`decimal.dfy`): `String(n)` for integers of magnitude at most 2^53, and a parser for reading it back.
- `Params` (`params.dfy`): filter values and entries, the `SearchParams` field names,
  the emptiness test and the string conversion.
- `Query` (`query.dfy`): the query list as a specification (`Kept`, `QueryPairs`) and
  the lemmas about filtering, order and the `page` default.
- `UrlParams` (`url_params.dfy`): the `URLSearchParams` object as a class
  (`append`, `has`, `toString`), and the form-urlencoded serialiser with its parser.
- `Api` (`api.dfy`): the builder loop, the URL, the response types, the
  classification `Settle` and the method `SearchProperties`.

The filter is a sequence of `Entry(key, value)` in `Object.entries` order. A value
is `Null`, `Undefined`, `Str(s)` or `Num(n)` with an integer `n`. The network call is
the parameter `fetch` of `SearchProperties`. It maps a URL to either a response
(a status and what `response.json()` would give) or the error the request failed
with. The percent-encoding of one name or value is the parameter `enc`.

The code injects no `per_page` default: only `page` is defaulted. It also does not
parse an error body into a message and field errors: a non-ok status always gives
the fixed message and carries no field map.

## Model

| member | source | states |
|---|---|---|
| Decimal.NatToString | src/services/api.ts:18 | the decimal form of a natural number is non-empty, all digits, and starts with `0` only when it is `"0"` |
| Decimal.IntToString | src/services/api.ts:18 | `String(n)` of an integer is non-empty, starts with `-` exactly when `n` is negative, and is digits after that |
| Decimal.IntToStringRoundTrip | src/services/api.ts:18 | parsing `String(n)` gives back `n` |
| Decimal.IntToStringInjective | src/services/api.ts:18 | distinct integers are sent as distinct strings |
| Params.Stringify | src/services/api.js:27 | the string sent for a kept value is never empty; a string is sent as itself; a number is sent as a numeral that reads back to it |
| Params.IsEmptyValue | src/services/api.ts:17 | a number is never empty, and a string is empty exactly when it is `""`; `Query.KeptMembers` and `Query.KeptHasKey` state what the test decides |
| Params.ZeroIsSent | src/services/api.ts:17 | numeric `0` is not an empty value and is sent as `"0"` |
| Query.Emitted | src/services/api.ts:17-19 | one entry contributes at most one pair |
| Query.Kept | src/services/api.ts:16-20 | the filtering loop yields no more pairs than entries, and no pair with an empty value |
| Query.QueryPairs | src/services/api.ts:16-25 | the final list is non-empty, holds a `page` pair, starts with every kept pair and adds at most one pair after them |
| Query.KeptAppend | src/services/api.js:25-29 | filtering distributes over concatenation of the entries, so it keeps their order |
| Query.KeptPosition | src/services/api.ts:16-19 | a non-empty entry is sent as `(key, String(value))`, right after the pairs kept from the entries before it |
| Query.KeptOrigin | src/services/api.ts:16-20 | every kept pair comes from a non-empty entry whose stringified pair it is, at the position that counts the kept entries before that entry |
| Query.KeptOrdered | src/services/api.js:25-29 | of two kept entries, the earlier one is sent first |
| Query.KeptMembers | src/services/api.js:25-29 | a pair is kept if and only if some entry with a value other than null, undefined and `""` stringifies to it |
| Query.KeptHasKey | src/services/api.ts:16-23 | a name is present after filtering if and only if some entry with that key has a non-empty value |
| Query.KeptDistinct | src/services/api.js:25-29 | entries with distinct keys give kept pairs with distinct names |
| Query.EmptyFilterQuery | src/services/api.ts:11-25 | the default empty filter yields exactly `[("page", "1")]` |
| Query.PageDefaulted | src/services/api.ts:23-25 | when every `page` entry is absent, null, undefined or `""`, the list is the kept pairs followed by one `("page", "1")`, and `page` occurs once |
| Query.DefaultAppended | src/services/api.js:32-34 | when no kept pair is named `page`, `("page", "1")` is appended last and `page` occurs once |
| Query.PageGiven | src/services/api.ts:16-25 | a non-empty `page` is sent as given, no default is added, and among distinct keys `page` occurs exactly once |
| Query.QueryPairsSound | src/services/api.ts:16-25 | every sent pair is either the `page` default or the stringified pair of a non-empty entry |
| Query.OnlyPageDefaulted | src/services/api.ts:16-25 | every name other than `page` (`per_page` included) is sent exactly as often as filtering keeps it, and is present only if a non-empty entry carries it |
| Query.QueryPairsDistinct | src/services/api.js:25-34 | entries with distinct keys give a list with no repeated name and exactly one `page` |
| Query.QueryPairsTyped | src/types/property.ts:1-11 | a filter using only `SearchParams` fields sends only those names |
| Query.ZeroBedroomsKept | src/services/api.ts:17 | `{bedrooms: 0}` is sent as `bedrooms=0` followed by `page=1` |
| Query.PriceRangePageTwo | src/services/api.ts:16-25 | `{price_min: 100000, price_max: 500000, page: 2}` is sent as exactly those three pairs in that order, with no `per_page` added |
| UrlParams.QueryParams.constructor | src/services/api.ts:13 | a new parameter list is empty |
| UrlParams.QueryParams.Append | src/services/api.ts:18 | `append` adds its pair at the end and changes nothing else |
| UrlParams.QueryParams.Has | src/services/api.ts:23 | `has(name)` is true if and only if some pair carries that name |
| UrlParams.QueryParams.ToString | src/services/api.ts:27 | `toString()` is empty exactly when the list is; `Api.RequestUrlDecodes` shows the URL built from it reads back to the list |
| UrlParams.Serialize | src/services/api.js:36 | the serialisation is empty exactly when the list is; `UrlParams.SerializeRoundTrip` shows it loses nothing |
| UrlParams.EncodedPairDecodes | src/services/api.ts:27 | one serialised pair holds no `&` and parses back to the pair |
| UrlParams.SerializeRoundTrip | src/services/api.ts:27 | parsing the serialised list gives back the list, when names and values are encoded without raw separators and decoding inverts encoding |
| Api.OmittedFilterQuery | src/services/api.ts:11 | calling without a filter sends exactly `[("page", "1")]` |
| Api.BuildQueryParams | src/services/api.ts:13-25 | the loop and the conditional append leave a fresh parameter object holding exactly the specified list |
| Api.RequestUrl | src/services/api.js:36 | the URL starts with `http://127.0.0.1:8000/api/properties/search?` and has a non-empty query after it |
| Api.RequestUrlDecodes | src/services/api.js:6-36 | the query part of the URL parses back to exactly the built list |
| Api.StatusMessage | src/services/api.ts:39 | the failure message starts with `API request failed with status ` |
| Api.StatusMessageRoundTrip | src/services/api.js:48 | the status can be read back out of its failure message |
| Api.StatusMessageInjective | src/services/api.js:48 | distinct statuses give distinct failure messages |
| Api.Response.Ok | src/services/api.ts:38 | `response.ok` holds exactly for a 2xx status; `Api.Settle` states what each side of the branch yields |
| Api.Settle | src/services/api.ts:38-46 | the result resolves if and only if the status is ok and the body parsed, and then to that body; it fails with exactly `StatusMessage(status)` if and only if the status is not ok; any other rejection carries the unchanged error of the request or of the body parse |
| Api.NonOkIgnoresBody | src/services/api.js:47-49 | for a non-ok status the outcome depends on the status alone, never on the body |
| Api.ServerErrorMessage | src/services/api.ts:38-40 | a 500 response is rejected with `API request failed with status 500` |
| Api.SearchProperties | src/services/api.js:21-56 | one call requests the URL built from the filter and produces the classified outcome of that one request; without a filter the URL is the base and path followed by `page=1` alone |

## Left out

- The network, the request method and headers, and `response.json()`: foreign I/O. They are the inputs `fetch` and `Json`.
- Percent-encoding by `URLSearchParams.toString()` (section 5.2 of the WHATWG URL Standard): library behaviour. It is the parameter `enc`. The round trip assumes only that `enc` never outputs `&` or `=` and that `dec` inverts it.
- `formatPrice` (src/services/api.ts:54-61, src/services/api.js:63-70): a call into `Intl.NumberFormat`, whose rounding and locale grouping belong to the library.
- `console.error` in the `catch` block: a log line with no effect on the result.
- Asynchrony: each call is one independent request, modelled as one call of `fetch`.
- The shape of a successful body (`PaginatedResponse`): the code returns it unchecked, so the body is an opaque type parameter.
- `ApiErrorResponse` and `ValidationErrorResponse`: declared in src/types/property.ts but used by neither copy of the function.
- Params.Stringify: models `String()` of integers of magnitude at most 2^53 only. Above that not every integer is a JavaScript number, and `String` prints the shortest digits that read back to the stored double; that, fractions, `NaN` and infinities are not modelled.
- Params.Value: has no booleans, objects or arrays. The untyped copy would accept them, but `SearchParams` declares them nowhere.
- Api.EntriesOf: passing `null` to the untyped copy makes `Object.entries` throw before the `try` block is entered; the typed signature excludes it.
- Api.SearchProperties: takes the entries already in `Object.entries` order. That order puts integer-like keys first; no `SearchParams` field name is integer-like.
