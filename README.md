# levelui in Dafny

levelui is a small web viewer for leveldb databases. A Go server opens the
databases named on its command line, keeps them in a registry, and serves a
JSON API under `/api/db/`: a paged listing of keys (`/keys`, with `start`,
`prefix` and `limit`), get and delete of single keys (`/key/<key>`), and set,
a POST to `/key` with the key and value in its JSON body.
A single-page browser client lists the databases, pages through keys, searches
by prefix after a short pause in typing, adds keys and deletes them.

This project models four parts of it and proves what each promises:

- `handler.dfy` (module `Handler`): the router of `/api/db/` (the path split
  at the first `/` into name, action and rest, then dispatch on the action and
  the HTTP method), the key-listing handler (limit parsing, seek, the
  collecting loop and `next_key`), and the status codes of the single-key
  handlers. The collecting loop is a `method` proved against the function
  `Page`.
- `pagination.dfy` (module `Pagination`): what a client gets by following
  `next_key`: without a prefix, every stored key exactly once; with a prefix,
  exactly the keys with that prefix, together with the quirk that `next_key`
  may lie outside the prefix and that a page may be empty while `next_key` is
  set.
- `manager.dfy` (module `Registry`): the `Manager` class with its two maps,
  `dbs` and `paths`, and the invariant that every name in `paths` is in `dbs`.
- `cli.dfy` (module `Cli`): the `-dbs` flag of `levelui-server` and the loop
  that registers its pairs in order, stopping at the first refusal.
- `client.dfy` (module `Client`): the browser client as a class whose methods
  are its event handlers, each `fetch` split into the method that issues the
  request and the method that takes the response, and the paths it sends
  followed through the server's decoding to the router.

Supporting modules: `go_strings.dfy` (`GoStrings`: `strings.SplitN` with
`n = 2`, `strings.Split`, `strings.TrimPrefix`, `strings.TrimSpace`,
`strconv.Atoi`, `strconv.Itoa`), `key_order.dfy` (`KeyOrder`: leveldb's
bytewise key order and `Seek`; `Storage`: a database as its sorted keys and
their values), `url_escape.dfy` (`UrlEscape`: Go's percent-decoding of paths
and `encodeURIComponent`), `markup.dfy` (`Markup`: `escapeHTML` and what the
browser reads back from a double-quoted attribute) and `wrappers.dfy`
(`Option`).

A database is modelled as a strictly increasing sequence of keys and a map
from key to value. Go strings are Dafny strings; for valid UTF-8, comparing
code points in order is the same as comparing the bytes, so `Below` is
leveldb's default comparer. Opening a database succeeds or fails
nondeterministically (a `:|` choice), storage errors are a boolean parameter,
the router's `url.PathUnescape` is a function parameter (`unescape`), which
the client lemmas instantiate with `UrlEscape.PercentDecode`, and the user's
answer to `confirm` is a boolean parameter. A request's path reaches the
router after net/http has decoded it once (`r.URL.Path`); the client lemmas
apply that decoding to the paths the client sends, after the browser's URL
parser has removed a trailing dot segment (`Client.SentDeletePath`).

The client model follows `ui/script.js` as written. The client has no page
history, Previous button, request cancellation or dialog controller, and
neither does the model.

## Model

| member | source | states |
|---|---|---|
| GoStrings.SplitTwo | handler.go:51 | `strings.SplitN(s, sep, 2)`: one part exactly when `sep` does not occur; two parts otherwise, the first free of `sep`, rejoining to `s` |
| GoStrings.SplitTwoOfJoined | handler.go:51-66 | splitting `a + sep + b` at the first `sep` gives back `a` and `b` when `a` has no `sep` |
| GoStrings.Split | cmd/levelui-server/main.go:24 | `strings.Split`: at least one piece, no piece holds the separator, and joining the pieces gives the input back |
| GoStrings.SplitOfJoin | cmd/levelui-server/main.go:24 | splitting the join of separator-free pieces returns the pieces |
| GoStrings.TrimPrefix | handler.go:50 | the text after the prefix when the path starts with it, the path unchanged otherwise |
| GoStrings.IndexOf | handler.go:51 | the first position of the separator, or the length when it is absent |
| GoStrings.LeadingSpace | cmd/levelui-server/main.go:25 | the length of the run of Unicode spaces at the start |
| GoStrings.TrailingSpace | cmd/levelui-server/main.go:25 | the length of the run of Unicode spaces at the end |
| GoStrings.TrimSpace | cmd/levelui-server/main.go:25 | the piece without its leading and trailing spaces; the result neither starts nor ends with a space |
| GoStrings.TrimSpaceOfTrimmed | cmd/levelui-server/main.go:25 | a piece that neither starts nor ends with a space is unchanged by trimming |
| GoStrings.TrimSpaceIdempotent | cmd/levelui-server/main.go:25 | trimming twice is trimming once |
| GoStrings.Atoi | handler.go:105 | a parsed number lies in the range of a 64-bit `int` and comes from a non-empty text |
| GoStrings.AtoiRejectsNonDigit | handler.go:105-107 | a character other than an ASCII digit after the optional sign makes `strconv.Atoi` fail, so the limit falls back to 50 |
| GoStrings.AtoiOfNegatedItoa | handler.go:105-107 | a minus sign before the decimal of `n` reads back as `-n`, down to the smallest `int` |
| GoStrings.Itoa | handler.go:105 | a decimal spelling of the number, with its value and no leading zero except in `0` itself |
| GoStrings.AtoiOfItoa | handler.go:104-108 | `strconv.Atoi` reads back every non-negative `int` written in decimal |
| KeyOrder.BelowIrreflexive | handler.go:112-121 | no key sorts before itself |
| KeyOrder.BelowTransitive | handler.go:112-121 | the key order is transitive |
| KeyOrder.BelowTotal | handler.go:112-121 | any two distinct keys are ordered one way |
| KeyOrder.BelowAsymmetric | handler.go:112-121 | two keys are never ordered both ways |
| KeyOrder.PrefixNotBelow | handler.go:126-127 | a key with prefix `p` never sorts before `p` |
| KeyOrder.PastPrefix | handler.go:126-127 | once a key at or after `p` lacks the prefix, every key with the prefix sorts before it |
| KeyOrder.PrefixStep | handler.go:126 | the prefix test steps through a common first character |
| KeyOrder.Seek | handler.go:116 | `iter.Seek`: the first position whose key is not below the target |
| KeyOrder.SeekRest | handler.go:115-121 | in a sorted database every key from the seek position on is at or after the target |
| KeyOrder.SeekStored | handler.go:115-116 | seeking a stored key lands on it |
| KeyOrder.SeekEmptyIsFirst | handler.go:119-120 | seeking the empty key is `iter.First` |
| Registry.Manager.constructor | manager.go:20-25 | a new manager has both maps empty and satisfies the invariant |
| Registry.Manager.Register | manager.go:30-46 | a taken name is refused and a failed open is reported, both leaving the maps unchanged; success records the name in `dbs` and its path in `paths`; the invariant `paths.Keys <= dbs.Keys` is kept |
| Registry.Manager.Add | manager.go:51-60 | refused exactly when the name is taken; otherwise the database is recorded in `dbs` only, `paths` is unchanged |
| Registry.Manager.Get | manager.go:64-69 | found exactly when the name is in `dbs`, with its database |
| Registry.Manager.List | manager.go:72-80 | every registered name exactly once (as a multiset), in an order left open |
| Registry.Manager.Close | manager.go:84-96 | removes from `dbs` exactly the names in `paths`, keeps the added ones, empties `paths`, keeps the invariant |
| Registry.CloseKeepsAdded | manager.go:84-96 | after closing, the names left are those never opened by `Register`, and their number is the difference |
| Handler.EffectiveLimit | handler.go:104-108 | the limit is always positive: the parsed value when it is a positive number, 50 when missing, malformed or not positive |
| Handler.LimitOfDecimal | handler.go:104-108 | no `limit` gives 50, and a positive decimal `limit` gives its value |
| Handler.StartIndex | handler.go:115-121 | the first position at or after `start` when it is set, else at or after `prefix`, else the first key |
| Handler.StopIndex | handler.go:123-134 | collection takes at most `limit` keys, each with the prefix, and stops only when full, at the end, or at the first key without the prefix |
| Handler.Page | handler.go:110-152 | the page a listing answers: the keys from `StartIndex` to `StopIndex` and `next_key`; stated by `Handler.PageShape` and `Handler.PageStops` |
| Handler.PageShape | handler.go:110-139 | a page is a contiguous run of the stored keys from the start position, at most `limit` long, and `next_key` is the key right after it when there is one and it is not empty |
| Handler.PageStops | handler.go:123-134 | every key of a page has the prefix, and the page ends because it is full, the keys ran out, or the next key lacks the prefix |
| Handler.NextKeyPresentWhenKeysRemain | handler.go:136-148 | in a sorted database `next_key` is present exactly when keys remain after the page, so `omitempty` never hides a position |
| Handler.TakeKeys | handler.go:123-134 | the collecting loop returns the run of keys up to the stop position |
| Handler.CollectKeys | handler.go:110-152 | the listing handler's loop produces exactly `Page` of the stored keys and the query |
| Handler.HandleGetKeys | handler.go:94-155 | 404 for an unknown database; otherwise 200 with the page for the query |
| Handler.HandleGetKey | handler.go:157-183 | 200 with the key and its value exactly when the database is known, storage does not fail and the key is stored; 404 for an unknown database or key; 500 on a storage error |
| Handler.HandleDeleteKey | handler.go:185-199 | 404 for an unknown database; otherwise 500 on a storage error, 204 after a delete |
| Handler.HandleSetKey | handler.go:201-224 | 404 for an unknown database, checked before the body; 400 for a body that is not JSON; 500 on a storage error; 201 after a write |
| Handler.RouteMissingName | handler.go:50-56 | the request is refused for a missing name exactly when the path after `/api/db/` is empty or starts with `/` |
| Handler.MissingNameOnly | handler.go:53-56 | only an empty name is refused as missing, whatever the action and method |
| Handler.NameEmptyIffSlashFirst | handler.go:51-53 | the part before the first `/` is empty exactly when the text is empty or starts with `/` |
| Handler.ParseTargetOf | handler.go:50-67 | `/api/db/<name>/<action><tail>` parses into that name, that action, and the tail after its `/` |
| Handler.RouteKeys | handler.go:69-71 | the `keys` action lists keys whatever the method |
| Handler.RouteKey | handler.go:72-87 | the `key` action: a rest that does not unescape is refused before the method is looked at; GET, DELETE and POST reach their handlers with the unescaped key; other methods are not allowed |
| Handler.RouteKeyBare | handler.go:72-87 | `<name>/key` with nothing after it is a `key` route with an empty rest: POST stores, GET fetches and DELETE removes the empty key, and any other method is not allowed |
| Handler.KeyAction | handler.go:72-87 | the dispatch of a parsed `key` target, case by case |
| Handler.RouteOtherAction | handler.go:88-89 | any other action, and no action at all, is not found |
| Handler.ParseTarget | handler.go:50-67 | the path after `/api/db/` split at its first `/` into the name and at the next into action and rest; its shape is stated by `Handler.ParseTargetOf`, `Handler.NameEmptyIffSlashFirst` and `Handler.RouteMissingName` |
| Handler.RouteTarget | handler.go:53-90 | the dispatch of a parsed target on its action and the method; stated case by case by `Handler.KeyAction` and `Handler.RouteOtherAction` |
| Handler.Route | handler.go:48-90 | `handleDB`'s routing of a path and method; stated by `Handler.RouteKeys`, `Handler.RouteKey`, `Handler.RouteKeyBare` and `Handler.MissingNameOnly` |
| Handler.HandleDB | handler.go:48-91 | routing then handling: 400 for a missing name or a bad escape, 405 for a wrong method on `key`, 404 for another action or an unknown database; a listing, a fetch (200, 404 for a missing key), a delete (204) and a set (201, 400 without a body) as their handlers answer, and 500 for a fetch, delete or set whose storage call fails |
| Pagination.ResumeAtNextKey | handler.go:115-139 | asking again with `start = next_key` starts exactly where the page stopped; with a prefix, an empty page means `next_key` lies outside it |
| Pagination.WalkFrom | handler.go:115-139 | following `next_key` without a prefix from any start returns every key from the start position on, in order |
| Pagination.WalkStep | handler.go:115-139 | one page followed by the walk from its `next_key` is the rest of the keys |
| Pagination.WalkCoversAll | handler.go:115-139 | paging from the first page without a prefix returns exactly the stored keys: no gap, no repeat |
| Pagination.PrefixNextKeyRepeats | handler.go:115-139 | with a prefix, a `next_key` outside the prefix leads to an empty page with the same `next_key`, which repeats forever |
| Pagination.PrefixEnd | handler.go:123-128 | the end of the run of keys with the prefix from a position |
| Pagination.PrefixRun | handler.go:117-128 | in a sorted database the keys with a prefix are exactly the run where a seek for the prefix lands |
| Pagination.OutsideRunLacksPrefix | handler.go:117-128 | no key before that run or after it has the prefix |
| Pagination.WithPrefixOfRun | handler.go:117-128 | a slice outside which no key has the prefix and inside which every key has it holds exactly the keys with the prefix |
| Pagination.PageInRun | handler.go:117-139 | a prefixed page lies inside the run of prefixed keys from its start position |
| Pagination.PrefixEndAtMost | handler.go:123-128 | the run reaches at least as far as every position up to which each key has the prefix |
| Pagination.PrefixEndFrom | handler.go:123-128 | starting the run later but inside it does not move its end |
| Pagination.WalkPrefixFrom | handler.go:115-139 | following `next_key` with a prefix while pages are not empty returns the run of prefixed keys from the start position |
| Pagination.WalkPrefixStep | handler.go:115-139 | one page followed by the prefixed walk from its `next_key` is the rest of the run |
| Pagination.WalkPrefixUnfold | handler.go:115-139 | a page that is followed by another is followed by the walk from its `next_key` |
| Pagination.WalkPrefixRest | handler.go:115-139 | after such a page the walk continues with the rest of the same run |
| Pagination.WalkPrefixCoversPrefix | handler.go:115-139 | paging from the first page with a prefix returns exactly the stored keys with that prefix |
| Pagination.EmptyPageWithNextKey | handler.go:123-139 | on keys `a`, `b` with prefix `a`: the first page is `[a]` with `next_key` `b`, and asking from `b` gives an empty page with `next_key` `b` |
| Cli.ParsePiece | cmd/levelui-server/main.go:25-27 | a trimmed piece without `:` names nothing; otherwise it is the name, `:`, and the path, cut at the first `:`, neither part trimmed |
| Cli.ParseAll | cmd/levelui-server/main.go:24-27 | each comma-separated piece parsed by `ParsePiece`, one result per piece |
| Cli.Collect | cmd/levelui-server/main.go:24-27 | the pairs the pieces name, in order, at most one per piece; stated by `Cli.CollectMembers`, `Cli.CollectStep` and `Cli.CollectAll` |
| Cli.CollectMembers | cmd/levelui-server/main.go:24-27 | the pairs collected are exactly the pairs some piece names |
| Cli.ParseDbs | cmd/levelui-server/main.go:24-27 | the pairs a `-dbs` value names, in order; stated by `Cli.ParseDbsOfRender` |
| Cli.CollectPrefix | cmd/levelui-server/main.go:24-32 | the pairs of the first pieces are the first of all the pairs |
| Cli.CollectStep | cmd/levelui-server/main.go:24-32 | one more piece adds its pair, when it names one, at the end |
| Cli.CollectAll | cmd/levelui-server/main.go:24-32 | when every piece names a pair, the pairs are exactly those |
| Cli.RenderEach | cmd/levelui-server/main.go:24-27 | writing each pair as `name:path` |
| Cli.ParsePieceOfRender | cmd/levelui-server/main.go:25-27 | a pair whose name has no `:` and that has no surrounding spaces parses back from `name:path` |
| Cli.ParseDbsOfRender | cmd/levelui-server/main.go:24-27 | a `-dbs` value written from such pairs, without commas, parses back to exactly those pairs, in order |
| Cli.PathsOf | cmd/levelui-server/main.go:27-28 | the name-to-path map recorded by registering the pairs, keyed by their names |
| Cli.PathsOfLookup | cmd/levelui-server/main.go:27-28 | with distinct names each pair's name maps to its path |
| Cli.PathsOfSnoc | cmd/levelui-server/main.go:28 | registering one more pair updates the map at its name, and names stay distinct exactly when the new name is new |
| Cli.TracksStep | cmd/levelui-server/main.go:28 | a successful registration of a new name extends the registered pairs by that pair |
| Cli.Configure | cmd/levelui-server/main.go:17-33 | an empty flag is refused before any registry exists; otherwise a fresh registry holds the flag's pairs in order up to the first refusal, all of them when serving; the refusal is a repeated name or a path that did not open |
| Cli.RegisterPairs | cmd/levelui-server/main.go:24-33 | the loop registers every pair in order with distinct names, `paths` equal to the pairs' paths, and stops at the first refused pair, reporting why |
| Cli.RegisterNext | cmd/levelui-server/main.go:28-31 | one turn: success adds the next pair to those held; a refusal leaves the registry as it was and is a repeated name exactly when an earlier pair has that name, else a path that did not open |
| UrlEscape.HexDigit | ui/script.js:193 | a digit `0`-`9` or an upper-case letter `A`-`F`, never a lower-case one, that reads back as the value |
| UrlEscape.Utf8 | ui/script.js:193 | one to four bytes, the single byte of an ASCII character being its code |
| UrlEscape.PercentDecode | handler.go:73 | Go's path decoding (also net/http's filling of `r.URL.Path`); stated by `UrlEscape.DecodeEscape`, `UrlEscape.DecodePlain`, `UrlEscape.DecodeVerbatim` and `UrlEscape.DecodeOfEncode` |
| UrlEscape.PercentBytes | ui/script.js:193 | three characters per byte, `%` and two hex digits that read back as the byte; ASCII and without `.` |
| UrlEscape.EncodeChar | ui/script.js:193 | unreserved characters kept; any other ASCII character written as `%` and its two hex digits; any other character as escapes whose first one reads back as its first UTF-8 byte; no `.` unless the character is `.` |
| UrlEscape.EncodeComponent | ui/script.js:193 | `encodeURIComponent`; stated by `UrlEscape.DecodeOfEncode` (decoding gives every ASCII text back), `UrlEscape.FirstEncoded` and `UrlEscape.EncodedDotSegment` |
| UrlEscape.EncodeEmpty | ui/script.js:193 | the encoding is empty exactly when the text is |
| UrlEscape.FirstEncoded | ui/script.js:193 | an encoding starts with `.` exactly when the text does, and never with an escape of `.` |
| UrlEscape.DotSegmentStart | ui/script.js:193 | every dot segment starts with `.` or `%2e`; after a leading `.`, a single dot has nothing left and a double dot a single dot |
| UrlEscape.ResolveLastSegment | ui/script.js:193 | the URL parser's dot-segment removal at the end of a path: a single dot is dropped, a double dot drops the segment before it too, any other segment is kept |
| UrlEscape.EncodedDotSegment | ui/script.js:193 | `encodeURIComponent` writes a single-dot segment exactly for the key `.` and a double-dot segment exactly for `..` |
| UrlEscape.EncodeDotChar | ui/script.js:193 | a character escaped with `.` as `%2E`: no `.`, ASCII for an ASCII character |
| UrlEscape.EncodeDots | ui/script.js:193 | `encodeURIComponent` with `.` escaped too writes no `.` |
| UrlEscape.EncodeDotsAscii | ui/script.js:193 | it writes ASCII text for ASCII text |
| UrlEscape.DecodeOfEncodeDots | ui/script.js:193 | Go's decoding undoes it on every ASCII text |
| UrlEscape.DecodeEscape | handler.go:73 | an escape decodes to the character with its code, in front of the rest |
| UrlEscape.DecodePlain | handler.go:50 | text without `%` decodes to itself in front of the rest |
| UrlEscape.DecodeVerbatim | handler.go:50 | a path without `%` is its own decoding |
| UrlEscape.DecodeEncodedChar | ui/script.js:193 | decoding an encoded ASCII character gives it back |
| UrlEscape.DecodeOfEncode | ui/script.js:193 | Go's decoding undoes `encodeURIComponent` on every ASCII text |
| Markup.EscapeText | ui/script.js:222-226 | `escapeHTML`, which leaves `"` as it is; stated by `Markup.Escape`, `Markup.DecodeOfEscape` and `Markup.AttrOfEscapedText` |
| Markup.AttrValue | ui/script.js:155-158 | what `dataset.db` and `dataset.key` read from a double-quoted attribute; stated by `Markup.AttrOfEscapedText` and `Markup.AttrOfEscapedAttr` |
| Markup.Escape | ui/script.js:222-226 | a `"` survives escaping exactly when quotes are not escaped and the text has one |
| Markup.DecodeEscapedChar | ui/script.js:222-226 | an escaped character decodes back to itself |
| Markup.DecodeOfEscape | ui/script.js:222-226 | decoding undoes escaping whenever no `"` was kept |
| Markup.EscapeAppend | ui/script.js:222-226 | escaping distributes over concatenation |
| Markup.AttrOfEscapedText | ui/script.js:110-111 | an attribute written with `escapeHTML` holds the text up to its first `"` |
| Markup.QuoteCutsKey | ui/script.js:111 | `data-key` of the key `a"b` holds `a` |
| Markup.AttrOfEscapedAttr | ui/script.js:110-111 | with `"` escaped too, the attribute holds the whole text |
| Client.QueryGet | handler.go:101-104 | Go's `Query().Get`: "" for an absent parameter, otherwise the value of the first parameter with that name |
| Client.FirstNamedShift | handler.go:101-104 | past a first parameter of another name, the first one with the name is one position further |
| Client.ListingUrl | ui/script.js:84-86 | the listing URL carries `start` only when it is not empty and `prefix` only when it is not empty, and the server reads back exactly those values with the default limit |
| Client.ListPath | ui/script.js:84 | the listing path, with the name put in as it is; stated by `Client.ListingRoutes` |
| Client.SetPath | ui/script.js:171 | the path the edit form posts to; stated by `Client.SetRoutes` |
| Client.DeletePath | ui/script.js:193 | the path of a delete, the key through `encodeURIComponent`; stated by `Client.DeleteRoutes` |
| Client.ListingRoutes | ui/script.js:84 | for a name the URL parser and net/http leave alone, the listing path is unchanged by net/http's decoding and reaches the key-listing handler |
| Client.SetRoutes | ui/script.js:171-175 | for such a name, the edit form's POST is unchanged by net/http's decoding and reaches the set-key handler |
| Client.SentDeletePath | ui/script.js:193 | the path `fetch` requests: the written delete path for every key but `.` and `..`; the path ending in `/key/` for `.`, and in the name and `/` for `..` |
| Client.DeleteRoutes | ui/script.js:193 | net/http decodes the encoded key once (or refuses the request); for every key but `.` and `..`, the DELETE then reaches the delete handler with the original key exactly when the handler's own `unescape` of that gives it back |
| Client.DotKeysMisrouted | ui/script.js:193 | the Delete of the key `.` is sent to the path ending in `/key/` and removes the empty key; the Delete of `..` is sent to the path ending in the name and `/` and is not found |
| Client.PercentKeyRefused | handler.go:73-76 | the key `50%` is sent as `50%25`, reaches the handler as `50%`, and is refused as a bad escape |
| Client.EncodePercentKey | ui/script.js:193 | `encodeURIComponent("50%")` is `50%25` |
| Client.DecodeSentKey | handler.go:73-76 | `50%25` decodes to `50%`, which does not decode |
| Client.EscapedKeyDeletesOther | handler.go:73-82 | the key `%41` is sent as `%2541`, reaches the handler as `%41`, and the handler deletes `A` |
| Client.EncodeEscapedKey | ui/script.js:193 | `encodeURIComponent("%41")` is `%2541` |
| Client.DecodeEscapedKey | handler.go:73 | `%2541` decodes to `%41`, which decodes to `A` |
| Client.DeleteRoutesDecodedOnce | handler.go:73-82 | with the key taken as net/http decoded it, every ASCII key other than `.` and `..` reaches the delete handler exactly as clicked |
| Client.EscapedDeletePath | ui/script.js:193 | the corrected delete path: the key encoded with `.` escaped too, then encoded again; stated by `Client.DeleteRoutesEscaped` |
| Client.EscapedSegmentKept | ui/script.js:193 | the URL parser leaves the corrected delete path as it is |
| Client.EscapedDecodedOnce | handler.go:73 | net/http decodes the corrected path to the key with its dots escaped |
| Client.DeleteRoutesEscaped | handler.go:73-82 | with the corrected delete path and the handler as it is, every ASCII key, `.` and `..` included, reaches the delete handler exactly as clicked |
| Client.QuotedKeyDeletesAnother | ui/script.js:111 | the Delete button of the key `a"b` sends the key `a` |
| Client.RowsFor | ui/script.js:106-113 | one new row per key, in order, with distinct elements numbered from the first unused one |
| Client.WithoutRow | ui/script.js:196 | removing a row's element keeps every other row and keeps elements distinct |
| Client.WithoutAbsentRow | ui/script.js:196 | removing a row that is no longer displayed changes nothing |
| Client.WithoutRowAt | ui/script.js:196 | with distinct elements, the delete removes exactly the clicked row and keeps the others in order |
| Client.TailDistinct | ui/script.js:196 | rows after the first are distinct and differ from it |
| Client.App.constructor | ui/script.js:19-21 | on load: no active database, no pending search, the welcome message, hidden modals, an empty form |
| Client.App.SelectDb | ui/script.js:69-79 | the database becomes active and its first page is requested with no start and no prefix; the data view still shows what it showed, and a pending search is not cancelled |
| Client.App.ListingArrived | ui/script.js:82-129 | a page renders fresh rows, the next key and a search box holding what `value="…"` keeps of the escaped prefix (up to its first `"`); a failed request shows the load error; the row invariant is kept |
| Client.App.Next | ui/script.js:128-135 | Next sends a request exactly when the next key is truthy, even on an empty page, for that key with the prefix the listing was rendered with |
| Client.App.Input | ui/script.js:139-144 | typing replaces the pending search with one for the text just typed in the listing's database, so only the latest value can fire |
| Client.App.TimerFires | ui/script.js:141-143 | the pending search asks for the first page with its prefix and no start, then nothing is pending |
| Client.App.OpenAddKey | ui/script.js:147-152 | Add Key resets the form, makes the key field editable and shows the edit modal |
| Client.App.TypeKey | ui/script.js:166 | typing in the key field changes the key only while the field is enabled |
| Client.App.TypeValue | ui/script.js:167 | typing in the value field |
| Client.App.CloseEditModal | ui/script.js:31-36 | the close button and the backdrop hide the edit modal |
| Client.App.SubmitEdit | ui/script.js:162-175 | nothing without a truthy active database; an alert and no request for an empty key; otherwise a POST of the form's key and value to the active database |
| Client.App.SetKeyDone | ui/script.js:177-186 | only 201 hides the modal and refetches the first page with the search box's text; with no search box on screen the read fails and alerts; any other status alerts and leaves the modal as it was |
| Client.App.AskDelete | ui/script.js:189-193 | a declined confirm sends nothing; otherwise a DELETE in the database and of the key read back from the button's `data-db` and `data-key` attributes, each cut at its first `"` |
| Client.App.DeleteDone | ui/script.js:195-203 | only 204 removes the row of the clicked button, if still displayed, and nothing else: the row at its position is cut out and the others keep their order; any other status alerts |

## Left out

- HTTP and JSON plumbing: `NewHandler`, the embedded and local file servers, `handleGetDBs`, `writeJSON`, JSON decoding of the POST body (a body is a `Payload` or `None`) and `http.ListenAndServe` are I/O.
- leveldb internals: iterators, `Get`, `Put`, `Delete` and `OpenFile` are not modelled beyond a sorted key sequence with values, and their failures are parameters or nondeterministic choices.
- Handler.HandleSetKey: states the status only; the write itself is leveldb's and its effect on the stored keys is not modelled.
- Handler.HandleDeleteKey: states the status only; the removal itself is leveldb's and its effect on the stored keys is not modelled.
- Handler.CollectKeys: the allocation `make([][]byte, 0, limit)` with a huge `limit`, which may exhaust memory, is not modelled.
- Keys are Unicode strings: byte strings that are not valid UTF-8 are not modelled.
- `sync.RWMutex` locking in the registry: concurrency; each method is atomic in the model.
- Registry.Manager.List: the order of the names is left open, as Go's map iteration order is unspecified.
- `url.PathUnescape` in the router is a function parameter; query parameters are modelled after decoding.
- UrlEscape.PercentDecode: an escape of a byte above 0x7F becomes the character with that code, where Go produces the raw byte and consecutive bytes form the UTF-8 of one character; decoding is exact for ASCII text only.
- UrlEscape.DecodeOfEncode: stated for ASCII text only, because of the byte decoding above.
- Client.ListingRoutes: promised only for names without `?`, `#`, `%`, `\`, tab or line break and other than `.` and `..` (`UrlSafeName`); the browser's URL parser or net/http's decoding changes the others. The browser's own percent-encoding of spaces, quotes and non-ASCII characters in a name, which net/http's decoding undoes, is not modelled: the request target is the path as the client writes it.
- Client.SetRoutes: promised only for the same names, for the same reason.
- Client.DeleteRoutes: promised only for the same names, for the same reason, and not for the keys `.` and `..`: the browser removes them as dot segments, so their Delete goes elsewhere (`Client.DotKeysMisrouted`).
- Client.DeleteRoutesDecodedOnce: not promised for the keys `.` and `..`, which the browser does not send as written.
- Client.DeleteRoutesEscaped: stated for ASCII keys only, because of the byte decoding above.
- `http.ServeMux`'s path cleaning is not modelled: from Go 1.22 on it works on the escaped path, which for the paths the client sends has no dot segment and no `//`; older versions cleaned the decoded path and redirected a key holding `/../`, `/./` or `//`.
- Markup.DecodeRefs: decodes only the five references a serialiser writes (`&amp;`, `&lt;`, `&gt;`, `&nbsp;`, `&quot;`); other character references in a raw database name in `data-db`, the HTML parser's turning of carriage returns into line feeds, and its replacement of NUL characters are not modelled.
- The `log.Printf` lines of `Close` and of the registration loop, and the `defer manager.Close()` that `log.Fatalf` skips, are logging and process exit.
- Cli.RegisterPairs: the pieces are parsed, and those without `:` dropped, before the loop rather than inside it; parsing has no effects, so the registrations and the outcome are the same.
- `fetchAndDisplayDBs` and `handleViewKey` in the client, and the view modal, are plain display of server answers; the View button reads `data-key` as the Delete button does, so it fetches the same cut key.
- DOM construction, HTML templates other than the attributes the handlers read back, CSS classes, and the texts of `alert`, `confirm` and `console` messages are UI; an alert is a returned flag and the answer to `confirm` is a parameter.
- Real time and async ordering in the client: `setTimeout` delays and the order in which responses complete are not modelled; each response is a separate event that may arrive in any order, without cancellation.
- `editForm.reset()` is modelled as emptying both fields, since the page markup that would give other defaults is not part of this model.
- GoStrings.Atoi: its contract states the range only; the value read and the failures are stated by `GoStrings.AtoiOfItoa`, `GoStrings.AtoiOfNegatedItoa` and `GoStrings.AtoiRejectsNonDigit`.

## Findings

The client model follows the code as written; the corrected definitions are
proved beside it.

| source | as written | input that shows it | evidently intended | confidence | as-written member | corrected member |
|---|---|---|---|---|---|---|
| handler.go:73 | the key is percent-decoded from `r.URL.Path`, which net/http has already decoded once, so a key is decoded twice | the key `50%`, sent as `50%25`: the handler sees `50%` and answers 400 | a delete or fetch reaches the handler with the key the user clicked | not executed | Client.PercentKeyRefused | Client.DeleteRoutesDecodedOnce |
| handler.go:73 | the same second decoding turns an escape inside a key into another character | the key `%41`, sent as `%2541`: the handler deletes the key `A` | the key clicked is the key deleted | not executed | Client.EscapedKeyDeletesOther | Client.DeleteRoutesDecodedOnce |
| ui/script.js:193 | the key goes into the path through `encodeURIComponent`, which leaves `.` alone, and the URL parser behind `fetch` removes dot segments | the key `.`: the DELETE goes to `/api/db/<name>/key/` and removes the empty key, and on 204 the row of `.` disappears while `.` stays stored; the key `..`: the DELETE goes to `/api/db/<name>/` and is answered 404 | the key clicked is the key deleted, as with the key's dots escaped and the key encoded once more | not executed | Client.DotKeysMisrouted | Client.DeleteRoutesEscaped |
| ui/script.js:111 | `data-key="…"` is written with `escapeHTML`, which does not escape `"`, so the attribute ends at the key's first `"` | the key `a"b`: its Delete button sends a DELETE of `a`, and on 204 the row of `a"b` disappears while `a"b` stays stored | the attribute holds the whole key, as with `"` written as `&quot;` | not executed | Client.QuotedKeyDeletesAnother | Markup.AttrOfEscapedAttr |
