# Salon booking app: customer directory and helpers, in Dafny

This project models the logic core of a salon booking app written in
TypeScript: the server's in-memory customer directory, the HTTP layer's
translation of query strings into searches, and the validate-then-add rule
for posted customers. On the browser side it models the form validators,
the two query-string builders, the Next/Previous cursor stack of the
customer search, and the half-hour time-slot grid of the appointment form.

Modules follow the source files:

- `CustomerDirectory` (customers.dfy) is `server/src/customers.ts`. The
  `Customers` class holds a `map<int, CustomerWithId>` and the `nextId`
  counter. `add` and the constructor are methods that change them.
  `errors` rebuilds its map step by step, so it is a method. The searches
  are functions over the current store.
- `App` (app.dfy) is `server/src/app.ts`: `buildSearchParams`,
  `buildSearchTerms` and the `POST /customers` handler.
- `CustomerFormValidation` is `src/customerFormValidation.ts`.
- `QueryString` (search_params.dfy) is `src/searchParams.ts`, together with
  `encodeURIComponent` and UTF-8.
- `CustomerSearch` is `src/CustomerSearch.tsx`, without its rendering.
- `AppointmentForm` is `src/appointmentForm.tsx`.
- `Types` follows `src/types.ts`.
- `JsString`, `JsNumber`, `JsArray` and `Wrappers` model the JavaScript
  built-ins the code calls: `trim`, `parseInt`, `String(n)`, `indexOf`,
  `findIndex`, `slice`, the stable `sort`, `split` and `join`. They also
  hold the `unique`/`flatMap` patches the server installs on
  `Array.prototype`.

A thrown exception is a `Result` error: `TypeError` or `RangeError`.
`undefined` is `None`. JavaScript truthiness is written out wherever the
code branches on it.

## Model

| member | source | states |
|---|---|---|
| `CustomerDirectory.Customers.constructor` | server/src/customers.ts:45-53 | The store starts empty with `nextId` 0, then adds the initial customers in order without validation. The i-th customer is stored under id i, and `nextId` ends at their count. |
| `CustomerDirectory.Customers.Add` | server/src/customers.ts:55-66 | The result is the input with `id` = the old `nextId`, which was not yet a key. It is stored under that key, every other entry is unchanged, and `nextId` grows by exactly 1. The store invariant holds: the keys are 0..nextId-1 and each record carries its key. |
| `CustomerDirectory.Customers.All` | server/src/customers.ts:68-70 | Returns a copy equal to the store and changes nothing. |
| `CustomerDirectory.Customers.RequiredValidation` | server/src/customers.ts:115-129 | The result has at most the one key. The field is present iff its value is missing or whitespace-only, and then holds "<description> is required". |
| `CustomerDirectory.Customers.UniqueValidation` | server/src/customers.ts:131-148 | The field is present iff some stored record has that value in that field, and then holds "<description> already exists in the system". |
| `CustomerDirectory.Customers.MergedErrors` | server/src/customers.ts:78-113 | The repeated `Object.assign` keeps the first- and last-name entries as they came. The phone-number entry is the uniqueness message whenever there is one, overriding "is required". |
| `CustomerDirectory.Customers.Errors` | server/src/customers.ts:78-113 | One message per missing field, all reported together, and passing fields absent. A phone number in use gets "Phone number already exists in the system". The map is empty iff the customer is acceptable. Nothing changes. |
| `CustomerDirectory.Customers.ReportedErrorsEmpty` | server/src/customers.ts:72-113 | Messages of the `errors` shape are empty exactly when all three fields are present and the phone number is unused. |
| `CustomerDirectory.Customers.IsValid` | server/src/customers.ts:72-76 | True iff `errors` has no keys, i.e. iff the customer is acceptable. Nothing changes. |
| `CustomerDirectory.RequiredMessage` | server/src/customers.ts:125 | The message is the description followed by " is required". |
| `CustomerDirectory.ExistsMessage` | server/src/customers.ts:142-144 | The message is the description followed by " already exists in the system". |
| `CustomerDirectory.Customers.MatchingFrom` | server/src/customers.ts:150-162 | From a position on, exactly the ids of the matching records, strictly ascending. |
| `CustomerDirectory.RegExpInput` | server/src/customers.ts:156-158 | What `test` reads of a property: a present text as it is, and `undefined` as the text "undefined". |
| `JsString.StartsWithIgnoringCase` | server/src/customers.ts:151-158 | `new RegExp("^" + term, "i").test(text)` for a plain term. The empty term and every exact prefix match, and a matching term is no longer than the text. |
| `JsString.StartsWithIgnoringCaseFolded` | server/src/customers.ts:151-158 | The case-insensitive prefix test holds exactly when the case-folded term is a prefix of the case-folded text. |
| `CustomerDirectory.MatchesTerm` | server/src/customers.ts:156-158 | The empty term matches every record. A term longer than all three texts matches nothing. |
| `CustomerDirectory.MatchesTermFolded` | server/src/customers.ts:151-158 | A record matches exactly when the case-folded term is a prefix of its case-folded first name, last name or phone number. |
| `CustomerDirectory.Customers.SearchForTerm` | server/src/customers.ts:150-162 | Exactly the stored ids, in ascending order, of the records where the term is a case-insensitive prefix of the first name, last name or phone number. |
| `CustomerDirectory.Customers.DefaultTermMatchesEveryone` | server/src/customers.ts:179-183 | With no `searchTerms`, the default term "" matches every stored record. |
| `CustomerDirectory.Customers.EmptyTermListFindsNothing` | server/src/customers.ts:179-183 | An explicit empty term list is truthy, so it is kept, and the search returns the empty page. |
| `CustomerDirectory.FirstMatch` | server/src/customers.ts:180-181 | The position of the first search term a record matches: it matches that term and none before it, or the position is past the end when it matches none. |
| `CustomerDirectory.Customers.MatchingIds` | server/src/customers.ts:180-182 | Each id is there once, and exactly the ids some term matches are present. Ids are ordered by their first matching term, and ids with the same first matching term are ascending. |
| `CustomerDirectory.Customers.UniqueInTermOrder` | server/src/customers.ts:180-182 | Keeping the first appearance of each id in the concatenated per-term results orders the ids by first matching term, then ascending. |
| `CustomerDirectory.Customers.IdsInTermOrder` | server/src/customers.ts:180-181 | Of two ids in the concatenated per-term results, the one that appears first has an earlier first matching term, or the same one and a smaller id. |
| `CustomerDirectory.Customers.FirstInBlocks` | server/src/customers.ts:180-181 | An id in the concatenated results is a stored id. Its first matching term is the first term whose result holds it. |
| `CustomerDirectory.Customers.Matching` | server/src/customers.ts:180-183 | The stored records of the matching ids, position by position in their order. These are exactly the stored records some term matches, without repeats and with distinct ids. |
| `CustomerDirectory.Lookup` | server/src/customers.ts:183 | Position by position, the records stored under the given ids. |
| `CustomerDirectory.LookupOfKeys` | server/src/customers.ts:183 | Distinct keys of records that carry their own key give distinct records, exactly those stored under the keys. |
| `CustomerDirectory.Customers.Ranked` | server/src/customers.ts:184-188 | The sorted matches have no duplicates and distinct ids. |
| `CustomerDirectory.TextProperty` | server/src/customers.ts:186-187 | A property name other than the six string fields reads as no string. |
| `CustomerDirectory.Customers.SortThrows` | server/src/customers.ts:184-188 | Sorting throws only when two or more records are compared. With a sort key outside the string fields, `id` included, it throws exactly then. |
| `CustomerDirectory.Customers.RankedOrder` | server/src/customers.ts:184-188 | The sorted list holds exactly the matching records, as many as there are. It is ordered by the `orderBy` key, ascending or reversed for "desc". Records with equal keys keep their order in `Matching`: first matching term, then ascending id. |
| `CustomerDirectory.EffectiveLimit` | server/src/customers.ts:177 | A truthy limit is kept; a missing limit, 0 or NaN gives 10. The result is never 0. |
| `CustomerDirectory.EffectiveOrderBy` | server/src/customers.ts:178 | A non-empty `orderBy` is kept; otherwise "firstName". |
| `CustomerDirectory.EffectiveTerms` | server/src/customers.ts:179 | A present list is kept, even empty; a missing list gives `[""]`. |
| `CustomerDirectory.AfterPosition` | server/src/customers.ts:190-192 | A falsy cursor (absent, 0, NaN) starts at 0. Otherwise the page starts one past the first record with that id, or at 0 when no record has it. |
| `CustomerDirectory.PageAt` | server/src/customers.ts:194-197 | For every limit, the page is the run of sorted records starting at the position. A positive limit takes the next `limit` records, or as many as remain. A limit that brings the end to or before the start, but not below 0, gives []. A limit that makes the end negative counts it from the back of the list. Every record comes from the sorted list; no duplicates are introduced. |
| `CustomerDirectory.Customers.Search` | server/src/customers.ts:164-198 | The defaults applied, the ranking and the page at the cursor's position. It returns a `TypeError` whenever two or more records match and one of them lacks `orderBy` as a string property. This over-approximates the comparator's throws (see Left out). Terms that are invalid patterns are not modelled. |
| `CustomerDirectory.Customers.PageHoldsStoredMatches` | server/src/customers.ts:164-198 | Every record of a page is a stored record some term matches. No record repeats. A positive limit bounds the page length. |
| `CustomerDirectory.NextQuery` | server/src/customers.ts:190-192 | The same query with the last record's id as `after`; every other property is unchanged. |
| `CustomerDirectory.CursorAdvances` | server/src/customers.ts:190-192 | A cursor naming the record at position end-1, with an id other than 0, resumes at `end`. |
| `CustomerDirectory.PagesFollow` | server/src/customers.ts:190-197 | In distinct sorted records and for every limit, negative ones included, the page after a page ending in a non-zero id starts where that page ended and shares no record with it. |
| `CustomerDirectory.PositionAfter` | server/src/customers.ts:191 | One past the first record carrying the id, or 0 when none does. |
| `CustomerDirectory.PageAfterFollows` | server/src/customers.ts:190-197 | In distinct sorted records, the page taken with a page's last id as the cursor is exactly the window starting where that page ended, and shares no record with it. This holds for every limit, and for every last id except 0. |
| `CustomerDirectory.Customers.OtherCursor` | server/src/customers.ts:164-198 | Two queries that differ only in `after` page through the same ranking. |
| `CustomerDirectory.Customers.NextPageFollows` | server/src/customers.ts:164-198 | Searching again with the last id of a page as the cursor succeeds and shares no record with that page. This holds for every `limit` the query carries, negative ones included, and for every last id except 0. |
| `CustomerDirectory.ZeroCursorRestartsPaging` | server/src/customers.ts:190-192 | Counterexample: when customer 0 ends a page of two, the "next" page is the first page again. |
| `CustomerDirectory.ResumePosition` | server/src/customers.ts:190-192 | Corrected cursor: any numeric cursor, 0 included, resumes one past the record with that id. |
| `CustomerDirectory.ResumedPageFollows` | server/src/customers.ts:190-192 | With the corrected cursor, the last id of a window always resumes right after the window. |
| `CustomerDirectory.ResumedPagesFollow` | server/src/customers.ts:190-197 | Corrected cursor: consecutive windows follow on and are disjoint, for every limit and with no exception for id 0. |
| `CustomerDirectory.ResumedPageAfterFollows` | server/src/customers.ts:190-197 | Corrected cursor: the next page is exactly the window after the page, disjoint from it, for every limit and whatever the last id. |
| `CustomerDirectory.ResumedPageAfterAgrees` | server/src/customers.ts:190-192 | Both cursor rules give the same page for every cursor except 0. |
| `CustomerDirectory.Customers.ResumedSearch` | server/src/customers.ts:164-198 | `search` with the corrected cursor: the same error case, and the page at the corrected position. |
| `CustomerDirectory.Customers.ResumedAgrees` | server/src/customers.ts:190-192 | The corrected search equals the search as written for every cursor except 0. |
| `CustomerDirectory.Customers.ResumedNextPageFollows` | server/src/customers.ts:164-198 | Corrected cursor: the next page never repeats a record of the page before, for every `limit` and whatever its last id. |
| `CustomerDirectory.Customers.ResumedOtherCursor` | server/src/customers.ts:164-198 | With the corrected cursor too, two queries that differ only in `after` page through the same ranking. |
| `JsArray.IndexOf` | server/src/customers.ts:14 | `self.indexOf(value)`: -1 exactly when the value is absent, and otherwise a position holding it with no earlier occurrence. |
| `JsArray.Unique` | server/src/customers.ts:12-16 | No duplicates, the same elements as the input, in order of first appearance. |
| `JsArray.UniqueOfDistinct` | server/src/customers.ts:12-16 | `unique` leaves a duplicate-free list unchanged. |
| `JsArray.FlatMap` | server/src/customers.ts:18-23 | An element is in the result iff it is in the image of some input element. The empty input gives the empty list. One element gives its image. The first element's image is a prefix of the result. |
| `JsArray.FlatMapAppend` | server/src/customers.ts:18-23 | `flatMap` of a concatenation is the concatenation of the two `flatMap`s. Together with the single-element case this fixes the order of the result. |
| `JsArray.IndexOfAppend` | server/src/customers.ts:14 | `indexOf` on a concatenation finds an element of the first part there, and otherwise past the first part in the second. |
| `JsArray.FlatMapConsIndexOf` | server/src/customers.ts:14-22 | `indexOf` in a `flatMap` finds an element of the first image there, and otherwise past that image. |
| `JsArray.FlatMapFirstOrder` | server/src/customers.ts:14-22 | Of two elements of a `flatMap`, the one with the smaller `indexOf` comes from an earlier first image holding it, or from the same image at an earlier position. |
| `JsArray.FindIndex` | server/src/customers.ts:191 | The first position satisfying the predicate, or -1 iff there is none. |
| `JsArray.RelativeIndex` | server/src/customers.ts:194-197 | A negative argument counts from the end, and stops at 0. A non-negative one is kept, capped at the length. |
| `JsArray.Slice` | server/src/customers.ts:194-197 | In-range arguments give the subsequence. A negative end, or a negative start and end, counts from the end, as in `slice(0, -1)`. An end that falls at or before the start gives []. |
| `JsString.LexLePrefix` | server/src/customers.ts:186-187 | In the order that stands in for `localeCompare(...) <= 0`, a prefix sorts no later than the text it starts. |
| `JsString.LexLeReflexive` | server/src/customers.ts:186-187 | Every text compares as no later than itself. |
| `JsString.LexLeTotal` | server/src/customers.ts:186-187 | Any two texts are comparable one way or the other. |
| `JsString.LexLeAntisymmetric` | server/src/customers.ts:186-187 | Two texts that each sort no later than the other are equal. |
| `JsString.LexLeTransitive` | server/src/customers.ts:186-187 | The order is transitive, so it is a total order the sort can use. |
| `JsArray.SortByKey` | server/src/customers.ts:184-188 | A permutation of the input, sorted by the key in the chosen direction, and stable: the records sharing any key keep their input order. |
| `App.BuildSearchTerms` | server/src/app.ts:238-244 | "" gives `undefined`; an array passes through unchanged; a string becomes a one-element list. |
| `App.BuildSearchParams` | server/src/app.ts:219-236 | Each of the five keys is set only when its raw value is truthy. `searchTerms` goes through `buildSearchTerms`, `after` and `limit` through `parseInt`, and `orderBy`/`orderDirection` are copied verbatim. Empty input gives the empty object. |
| `App.CursorTextRoundTrip` | server/src/app.ts:231 | The decimal text of any id is truthy and parses back to that id. |
| `JsNumber.ParseInt` | server/src/app.ts:231-232 | Blank text gives NaN. A number comes only from text that, after leading white space and at most one sign, starts with a digit. Only a `-` sign gives a negative number. |
| `App.IsTruthy` | server/src/app.ts:227-232 | `undefined` is falsy, a string is truthy exactly when its text is not "", and every array is truthy, `[]` included, although its text is "". |
| `JsNumber.IntToString` | src/CustomerSearch.tsx:6 | `${after}` for an integer: non-empty, starting with `-` exactly for a negative number, and the rest decimal digits whose value is the magnitude. |
| `JsNumber.ParseIntOfIntToString` | server/src/app.ts:231-232 | `parseInt(String(n))` is n for every integer, negative ones included. |
| `App.Response.Status` | server/src/app.ts:69-72 | 201 exactly for a created record, 422 exactly for validation errors. |
| `App.PostCustomer` | server/src/app.ts:65-74 | A record is created iff the customer is acceptable, and it is then stored under the old `nextId`. Otherwise the store and `nextId` are unchanged, and the non-empty `errors` messages are returned. |
| `CustomerFormValidation.Required` | src/customerFormValidation.ts:6-8 | `required(d)(v)` is d exactly when v is empty or whitespace-only, else `undefined`. |
| `JsString.Trim` | src/customerFormValidation.ts:6 | `trim()` gives a part of the text with only white space around it, and neither starting nor ending with white space. |
| `JsString.TrimEmptyIffAllWhitespace` | src/customerFormValidation.ts:6 | `trim()` gives "" exactly for whitespace-only text. |
| `CustomerFormValidation.Match` | src/customerFormValidation.ts:9-11 | `match(re, d)(v)` is d exactly when v does not match, else `undefined`. |
| `CustomerFormValidation.OrElse` | src/customerFormValidation.ts:13 | `result \|\| validator(value)` is one of its two operands. It is a truthy error iff either operand is one, and a truthy first operand is kept. |
| `CustomerFormValidation.Reduce` | src/customerFormValidation.ts:12-15 | The `reduce` ends in a truthy error iff the starting result is one or some validator reports one, and a truthy starting result is kept to the end. |
| `CustomerFormValidation.List` | src/customerFormValidation.ts:12-15 | `list(...)(v)` is a truthy error exactly when some validator reports one for v. |
| `CustomerFormValidation.ReduceReportsSomeError` | src/customerFormValidation.ts:12-15 | Starting from `undefined`, the `reduce` ends in a truthy error exactly when some validator reports one. |
| `CustomerFormValidation.ListFirstError` | src/customerFormValidation.ts:12-15 | `list` returns the error of the first validator, in order, that reports a truthy one. |
| `CustomerFormValidation.ListNoError` | src/customerFormValidation.ts:12-15 | With no truthy error, `list` gives the last validator's result. It is `undefined` when all pass or when there are no validators. |
| `CustomerFormValidation.ListIgnoresLaterValidators` | src/customerFormValidation.ts:12-15 | Appending validators after one that reports an error does not change the result. |
| `CustomerFormValidation.ReduceKeepsError` | src/customerFormValidation.ts:12-15 | Once the running result is a truthy error, the remaining validators keep it. |
| `CustomerFormValidation.ValuesOf` | src/customerFormValidation.ts:16 | `Object.values` holds exactly the values of the record. |
| `CustomerFormValidation.AnyDefined` | src/customerFormValidation.ts:16-18 | True iff some value is not `undefined`. |
| `CustomerFormValidation.AnyErrors` | src/customerFormValidation.ts:16-18 | True exactly when some value of the record is not `undefined`. |
| `CustomerFormValidation.HasError` | src/customerFormValidation.ts:19 | A missing field reads as `undefined`, so it has no error. A present field has an error iff its value is not `undefined`. A field with an error makes `anyErrors` true. |
| `CustomerFormValidation.HasErrorAfterValidateMany` | src/customerFormValidation.ts:19-26 | After `validateMany`, a given field has an error iff its validator returns a message for its text. A field that was not given has none. |
| `CustomerFormValidation.AnyErrorsIffSomeField` | src/customerFormValidation.ts:16-19 | `anyErrors(e)` holds iff `hasError(f, e)` holds for some field f. |
| `CustomerFormValidation.ValidateMany` | src/customerFormValidation.ts:20-26 | The result has exactly the keys of the fields, and each value is that field's validator applied to its text. |
| `QueryString.Kept` | src/searchParams.ts:6 | The filter never lengthens the entry list. |
| `QueryString.KeptOne` | src/searchParams.ts:6 | An entry is dropped exactly when its value is "" or `undefined`, and otherwise kept as it is. |
| `QueryString.KeptAppend` | src/searchParams.ts:6 | The filter keeps entry order: it distributes over concatenation. |
| `QueryString.KeptEmpty` | src/searchParams.ts:6 | Nothing survives exactly when every value is "" or `undefined`. |
| `QueryString.Utf8` | src/searchParams.ts:7 | One to four bytes, each below 256, and a single byte, its own code, exactly for ASCII. |
| `QueryString.SlightlySmilingFaceBytes` | src/searchParams.ts:7 | U+1F642 is encoded as F0 9F 99 82. |
| `QueryString.EncodeURIComponent` | src/searchParams.ts:7 | The output holds only characters `encodeURIComponent` leaves unescaped, plus `%`, so never `&`, `=` or `?`. Text already made of unreserved characters is unchanged. |
| `QueryString.DecodeEncode` | src/searchParams.ts:7 | Percent-decoding the encoding gives back exactly the UTF-8 bytes of the original. |
| `QueryString.Utf8OfCharDecodes` | src/searchParams.ts:7 | The lead byte of a character's encoding gives the length of its sequence, and the payload bits give the character back. |
| `QueryString.Utf8DecodeEncode` | src/searchParams.ts:7 | UTF-8 decoding inverts UTF-8 encoding, so no two strings share an encoding. |
| `QueryString.DecodeURIComponentEncode` | src/searchParams.ts:7 | Percent-decoding and then UTF-8 decoding an encoded string gives the string back. |
| `QueryString.HexValueOfDigit` | src/searchParams.ts:7 | Each hexadecimal digit of an escape reads back as its value. |
| `QueryString.Pair` | src/searchParams.ts:7 | An encoded `key=value` pair holds no `&`. |
| `QueryString.PairParses` | src/searchParams.ts:7 | A pair splits at its single `=` into the encoded key and value, and each decodes to the original's bytes. |
| `QueryString.Pairs` | src/searchParams.ts:7 | One pair per kept entry, in order. |
| `QueryString.SearchParams` | src/searchParams.ts:4-8 | "" exactly when every value is "" or `undefined`. Otherwise "?" followed by text that splits at `&` back into exactly the encoded pairs of the kept entries, in entry order. |
| `QueryString.SearchParamsOfPairs` | src/searchParams.ts:8 | The result is "" or "?" followed by the pairs joined with "&". |
| `JsString.Join` | src/searchParams.ts:8 | [] gives "". Otherwise the result starts with the first piece and ends with the last, and its length is the pieces' total plus one separator between each two neighbours. |
| `JsString.Split` | src/searchParams.ts:8 | Splitting a query body at one separator character gives at least one piece, and no piece holds the separator. |
| `JsString.SplitFree` | src/searchParams.ts:8 | Text without the separator splits into itself alone. |
| `JsString.SplitJoin` | src/searchParams.ts:8 | Joining pieces free of the separator and splitting again gives the pieces back. |
| `CustomerSearch.SearchParams` | src/CustomerSearch.tsx:4-12 | "" when both arguments are empty. Otherwise "?" and the `after=` pair, then the `searchTerm=` pair, each only when non-empty, joined by "&". For unreserved values it equals the encoding builder's result. |
| `CustomerSearch.EncodedCases` | src/CustomerSearch.tsx:4-12 | For values of unreserved characters only, the encoding builder gives the hand-rolled result in all four cases. |
| `CustomerSearch.VerbatimTermSplits` | src/CustomerSearch.tsx:6-7 | Values go in verbatim: the term "a&b" splits into two query pairs, while the encoding builder keeps it as one. |
| `CustomerSearch.Pushed` | src/CustomerSearch.tsx:57-59 | An undefined or empty page leaves the stack as it was. Otherwise the stack grows by the id of the page's last row. |
| `CustomerSearch.Popped` | src/CustomerSearch.tsx:62 | `slice(0, -1)`: the stack without its top, and [] for []. |
| `CustomerSearch.PoppedPushed` | src/CustomerSearch.tsx:56-63 | Previous after Next on a non-empty page restores the stack. |
| `CustomerSearch.Top` | src/CustomerSearch.tsx:68 | The last cursor, or none exactly for the empty stack. |
| `CustomerSearch.AfterArgument` | src/CustomerSearch.tsx:6-69 | "" exactly for an empty stack or the falsy id 0. Otherwise the id's text, which parses back to that id. |
| `CustomerSearch.CursorMatchesServerQuery` | src/CustomerSearch.tsx:56-70 | After Next on a page whose last id is not 0, the requested `after` is truthy. The server parses it to the cursor its own next-page query carries. |
| `CustomerSearch.ZeroCursorDropped` | src/CustomerSearch.tsx:6-69 | As written, after Next on a page ending with customer 0, the request carries no cursor. |
| `CustomerSearch.ResumedAfterArgument` | src/CustomerSearch.tsx:6-69 | Corrected cursor text: "" only for the empty stack. Otherwise the id's text, 0 included, which parses back to the id. |
| `CustomerSearch.ResumedCursorMatchesServerQuery` | src/CustomerSearch.tsx:56-70 | With the corrected text, the request after Next on any non-empty page carries the server's next-page cursor. |
| `CustomerSearch.CustomerSearch.constructor` | src/CustomerSearch.tsx:53-55 | No page yet, an empty cursor stack and an empty search term. |
| `CustomerSearch.CustomerSearch.HandleNext` | src/CustomerSearch.tsx:56-60 | The stack becomes `Pushed` of the current page, so it is unchanged for an undefined or empty page. Nothing else changes. |
| `CustomerSearch.CustomerSearch.HandlePrevious` | src/CustomerSearch.tsx:61-63 | The stack becomes `Popped`; nothing else changes. |
| `CustomerSearch.CustomerSearch.HandleSearchTextChanged` | src/CustomerSearch.tsx:64-66 | Only the search term changes; the cursors are kept. |
| `CustomerSearch.CustomerSearch.ReceivePage` | src/CustomerSearch.tsx:77 | The reply becomes the current page; nothing else changes. |
| `CustomerSearch.CustomerSearch.FetchUrl` | src/CustomerSearch.tsx:67-70 | `/customers` followed by the four shapes of the query for the top cursor and the search term. It is plain `/customers` initially. |
| `AppointmentForm.TimeIncrements` | src/appointmentForm.tsx:49-58 | A `RangeError` exactly for n < 0 or n > 2^32-1; a `TypeError` exactly for n = 0. Otherwise n elements, element i being start + i·increment. |
| `AppointmentForm.ConcatenatedProgression` | src/appointmentForm.tsx:56-57 | Each `reduce` step extends the progression by one element. |
| `AppointmentForm.ConsecutiveStep` | src/appointmentForm.tsx:56-57 | Consecutive elements differ by exactly the increment. |
| `AppointmentForm.IncreasingWithPositiveStep` | src/appointmentForm.tsx:56-57 | With a positive increment the elements strictly increase. |
| `AppointmentForm.DailyTimeSlots` | src/appointmentForm.tsx:60-72 | (closes − opens)·2 slots, starting at today's opening instant and 1,800,000 ms apart; the last slot ends at closing. Equal hours throw a `TypeError`; closing before opening throws a `RangeError`. |
| `AppointmentForm.DefaultHoursSlots` | src/appointmentForm.tsx:40-45 | The default hours 9 and 19 give 20 slots, the last at opening + 19 half-hours. |
| `AppointmentForm.WeeklyDateValues` | src/appointmentForm.tsx:76-80 | The caller's date is moved to its midnight. Seven values follow, starting at that midnight, 86,400,000 ms apart. |
| `AppointmentForm.WeekIncreasing` | src/appointmentForm.tsx:76-80 | The seven dates strictly increase. |

## Left out

- Express routing, static files, logging and the GraphQL endpoint of `server/src/app.ts` are transport plumbing over libraries, so they are left out. So is the `GET /customers` handler beyond `buildSearchParams`.
- `server/src/appointments.js` is not part of this model.
- React rendering, the form components, the loaders and all fetch I/O are left out. `fetchData` is modelled only up to the URL it requests, and its reply enters as `ReceivePage`.
- Random sample data (`generateFakeCustomers`, `src/sampleData.ts`) and fixtures are non-deterministic or static data, so they are left out.
- Date formatting (`toTimeValue`, `toShortDate`) depends on the locale, so it is left out. The browser's clock and time zone are left out too: "today at the opening hour" and "the local midnight of a date" are integer millisecond inputs.
- `CustomerDirectory.MatchesTerm`: the search builds `new RegExp("^" + term, "i")` without escaping. Terms holding regular-expression metacharacters are matched as plain prefixes, not as patterns; a term that is an invalid pattern, which would throw, is not modelled. Case folding covers ASCII letters only.
- `JsArray.SortByKey`: `localeCompare` is replaced by code-point lexicographic order; locale collation is not modelled.
- `CustomerDirectory.Customers.Search`: exactly which missing-key comparisons throw depends on the engine's sort algorithm. The model reports a `TypeError` whenever two or more records are sorted and one lacks the `orderBy` property as a string.
- Only `firstName`, `lastName`, `phoneNumber`, `stylist`, `service` and `notes` are string properties for sorting. Any other `orderBy` name, `id` included, leads to the `TypeError` above as soon as two records are sorted.
- `JsNumber.ParseInt`: numbers are unbounded integers. Floating point and the 2^53 limit are not modelled.
- `App.BuildSearchParams`: repeated `orderBy`/`orderDirection` query keys, which arrive as arrays, are read as single strings.
- `QueryString.Utf8`: a `string` is a sequence of Unicode scalar values, so lone surrogates, on which `encodeURIComponent` throws a `URIError`, cannot occur. The entry order in `Object.entries` is the order of the given entry list.
- `QueryString.Utf8Decode` is the decoder the encoding's round trip is stated with, not a part of the app. It reads each sequence's length from its lead byte and does not reject overlong forms or bad continuation bytes, which no encoding produces.
- `CustomerFormValidation.ValidateMany`: fields are given as an entry list without repeated names. An `undefined` field value, which `Object.entries` would pass to a validator, is not modelled.
- `CustomerFormValidation.Match`: a regular expression is an abstract predicate on strings.
- `CustomerSearch.CustomerSearch`: `lastRowIds` is declared `string[]`, but the ids come from the server's JSON as numbers, so the stack holds integers. React's asynchronous state updates are modelled as direct assignments.
- `AppointmentForm.WeeklyDateValues`: the mutation of the caller's `Date` is represented by the returned `startDate` field, not by updating a shared object.
- `AppointmentForm.DailyTimeSlots`: hours are integers; fractional opening hours are not modelled.
- `CustomerDirectory.Customers.PageHoldsStoredMatches`: for a negative `limit`, `slice` counts the end from the back of the list. The page is still made of stored matches, but no length bound is stated for that case.
- `CustomerDirectory.Customers.EmptyTermListFindsNothing`: an explicit `[]` is truthy, so `searchTerms || [""]` keeps it and the search returns no records; only an absent list gets the default `[""]`.

## Findings

| source | as written | input that shows it | evidently intended | confidence | as-written member | corrected member |
|---|---|---|---|---|---|---|
| server/src/customers.ts:190-192 | `after ? findIndex(...) + 1 : 0` treats the cursor 0 as no cursor | Records ranked [id 1, id 0, id 2] with limit 2: the page after the first page, with cursor 0, is the first page again | Every id, 0 included, resumes after the record it names | high, not executed | `CustomerDirectory.ZeroCursorRestartsPaging` | `CustomerDirectory.Customers.ResumedNextPageFollows` |
| src/CustomerSearch.tsx:6 | `if (after)` drops the numeric cursor 0, which the JSON ids make the top of the stack | Next on a page whose last row is customer 0: the request carries no `after` | The decimal text of the id, as the `string[]` type of `lastRowIds` implies, so "0" is kept | medium, not executed | `CustomerSearch.ZeroCursorDropped` | `CustomerSearch.ResumedCursorMatchesServerQuery` |
