# biomichi core, modelled in Dafny

biomichi is a thin Google Drive browser. Its server signs users in against an
e-mail allowlist, crawls the folder tree under a configured root folder into
an in-memory id index, and scopes Drive full-text search results to that
subtree. A stand-alone browser client (`app.js`) does the same with its index
kept in `localStorage`. This project models the logic inside that plumbing:

- `common.dfy` (`Common`): optional values, JavaScript `Set`s as
  insertion-ordered sequences without repeats (`SetAdd`, `Dedup` for
  `new Set(xs)`), and `Array.prototype.filter` (`Filter`, with the
  order-preserving subsequence relation `IsSubseq`).
- `text.dfy` (`Text`): `join`, `split` on one character, `trim`,
  `toLowerCase`, and the two apostrophe escapings the code uses:
  - `EscapeFirst`: `replace("'", "\\'")`, which escapes only the first
    apostrophe;
  - `EscapeAll`: `replace(/'/g, "\\'")`, which escapes every one.
- `query.dfy` (`Query`): the fixed words of Drive queries (`trashed =
  false`, ` and `) and `ReadLiteral`, a reader for a quoted literal under
  which a backslash takes the next character as it is and the first other
  apostrophe closes the literal. `EscapeLiteral` is the escaping that reader
  needs: a backslash before every backslash and every apostrophe.
- `folders.dfy` (`Folders`): the remote Drive as a finite map from a folder
  id to the records a listing of its children returns. It holds the reference
  definition of what a breadth-first crawl collects:
  - `Level`: the folder ids at each depth;
  - `Expanded`: the (folder, depth) pairs within the bound;
  - `Reach`: their ids plus their children's ids.
  It also holds the path characterisation of levels, the crawl's loop
  invariant, and a queue weight that proves the depth-bounded crawl
  terminates on any finite map, cyclic or not.
- `drive.dfy` (`Drive`, for `lib/drive.ts`): the children query, the `files`
  fallback of a listing, the activity request body, and the depth-bounded
  crawl as a `while` loop over a queue.
- `cache.dfy` (`Cache`, for `lib/cache.ts`): the index cache as a class whose
  `SetIndexIds` replaces its fields.
- `auth.dfy` (`Auth`, for `lib/auth.ts`): the allowlist parsing, the
  sign-in check, and the `jwt` and `session` callbacks on token and session
  objects.
- `searchroute.dfy` (`SearchRoute`): the search handler of
  `app/api/drive/search/route.ts`, and the index refresh handler of
  `app/api/index/refresh/route.ts`, which composes crawl and cache.
- `client.dfy` (`Client`, for `app.js`):
  - the `html` tag;
  - a `Storage` class for `localStorage`;
  - the unbounded crawl with its stored index;
  - the refresh button;
  - `search`.

The Drive service, the clock and the session are parameters. A listing is
`Children(drive, id)` and a search answer is a function from query string to
an optional file list. The clock reading is `now`. Whether a request has a
session is a boolean.

## Model

| member | source | states |
|---|---|---|
| Common.SetAdd | lib/drive.ts:96 | adding to a Set keeps it free of repeats, adds exactly the new element, and appends it only when it is new |
| Common.Dedup | lib/cache.ts:14 | `new Set(xs)` has no repeats and exactly the elements of `xs`, each once |
| Common.DedupDistinct | lib/cache.ts:14 | a list that already holds each id once goes through `new Set` unchanged, order included |
| Common.Filter | app/api/drive/search/route.ts:42-47 | `filter` returns an order-preserving subsequence holding exactly the elements that pass, with their original multiplicity |
| Text.JoinSplit | lib/auth.ts:6-7 | joining the comma-split pieces with a comma gives back the setting |
| Text.SplitWithoutSeparator | lib/auth.ts:7 | a setting without commas is one piece |
| Text.Trim | lib/auth.ts:8 | `trim` returns the slice of the input left when leading and trailing white space is cut: everything outside it is white space, it neither starts nor ends with white space, and it is empty exactly when the input is all white space |
| Text.TrimIdempotent | lib/auth.ts:8 | trimming twice changes nothing more |
| Text.Lower | lib/auth.ts:8 | `toLowerCase` keeps the length, lowers each ASCII letter and leaves no upper-case letter |
| Text.LowerIdempotent | lib/auth.ts:8 | lowering twice changes nothing more |
| Text.EscapeFirst | app/api/drive/search/route.ts:22-23 | a string pattern in `replace` adds one backslash when the text holds an apostrophe and none otherwise |
| Text.EscapeFirstAt | app/api/drive/search/route.ts:22-23 | the backslash goes before the first apostrophe; later apostrophes are left as they are |
| Text.EscapeAllLength | app.js:121 | the global `replace` adds one character per apostrophe |
| Text.EscapeAllChar | app.js:121 | one character is escaped on its own: an apostrophe becomes backslash-apostrophe, anything else stays |
| Text.EscapeAllConcat | app.js:121 | the global `replace` works character by character: escaping a concatenation concatenates the escapings |
| Text.EscapeAllAt | app.js:121 | every apostrophe, wherever it sits, comes out as backslash-apostrophe between the escapings of the text before and after it |
| Text.EscapeFirstAgreesOnOneQuote | app/api/drive/search/route.ts:22-23 | with at most one apostrophe the route's escaping equals the client's |
| Query.EscapeLiteralLength | app.js:121 | the full escaping adds one backslash per apostrophe and per backslash |
| Query.ReadEscapedLiteral | app.js:121 | a fully escaped text followed by an apostrophe reads back as exactly the text, and the literal closes at that apostrophe whatever follows |
| Query.EscapeAllWithoutBackslash | app.js:121 | on text without a backslash, the client's global `replace` is the full escaping |
| Query.EscapeFirstEndsLiteralEarly | app/api/drive/search/route.ts:22-23 | with the route's escaping, the literal for `a'b'` closes at its second apostrophe, holding `a'b`, with the intended closing quote left over |
| Query.BackslashKeepsLiteralOpen | app.js:121 | neither front end's escaping touches a backslash, so for `a\` the literal never closes |
| Folders.ReachRoot | lib/drive.ts:92-96 | the root is reached whenever `maxDepth >= 0`, and nothing is reached when `maxDepth < 0` |
| Folders.ReachComplete | lib/drive.ts:97-99 | every child listed for a folder at folder depth at most `maxDepth` is reached |
| Folders.ReachSound | lib/drive.ts:96-99 | every reached id is the root or a child listed for a folder at folder depth at most `maxDepth` |
| Folders.LevelIsPathEnd | lib/drive.ts:100-102 | the folders at depth k are exactly the ends of k-hop paths through folder-typed children |
| Folders.FolderEntriesExact | lib/drive.ts:100-102 | only folder-typed children are queued, all of them, one level below their parent |
| Folders.ReachStable | lib/drive.ts:93-95 | once a level is empty, any deeper bound reaches the same ids |
| Folders.ListStepDecreases | lib/drive.ts:93-103 | listing an entry within the bound lowers the queue's weight, so the crawl ends on any finite map |
| Folders.FinalState | lib/drive.ts:93-105 | when the queue runs dry, the listed entries are exactly those within the bound and the ids are exactly `Reach` |
| Drive.ChildrenQuery | lib/drive.ts:49 | the children query is the quoted folder id followed by `in parents and trashed = false` |
| Drive.ChildrenQueryRoundTrip | lib/drive.ts:49 | the folder id can be read back out of its query |
| Drive.ChildrenQueryInjective | lib/drive.ts:49 | different folders give different queries |
| Drive.ListedFiles | lib/drive.ts:43 | a response without `files` lists as empty, otherwise as its `files` |
| Drive.ActivityRequestBody | lib/drive.ts:54-65 | the body names `items/` followed by the ancestor id, has page size 50 unless one is given, and asks for legacy consolidation |
| Drive.AddChildren | lib/drive.ts:98-103 | every listed child's id is recorded once, and the folder-typed ones are queued in listing order one level deeper |
| Drive.VisitFolder | lib/drive.ts:96-103 | visiting a folder adds its id and the ids of all its children to the id set, keeps the set free of repeats, and appends exactly its child folders at the next depth to the queue |
| Drive.ListFolder | lib/drive.ts:94-103 | listing the head entry records it and its children and keeps the crawl invariant |
| Drive.CrawlDescendants | lib/drive.ts:82-106 | the crawl terminates and returns each id once; its ids are exactly `Reach`; it lists exactly the entries within the depth bound |
| Cache.IndexCache.constructor | lib/cache.ts:8-11 | the cache starts with no ids and `updatedAt` 0 |
| Cache.IndexCache.SetIndexIds | lib/cache.ts:13-16 | the id set is replaced by exactly the ids of the argument, each once; `updatedAt` is the clock reading; the cache then has an index iff the argument is non-empty |
| Cache.IndexCache.HasIndex | lib/cache.ts:18-20 | there is an index iff the id set has a member |
| Cache.IndexCache.ListIndexIds | lib/cache.ts:22-24 | the array lists every cached id once and nothing else |
| Auth.NormalizedPieces | lib/auth.ts:6-8 | one normalised entry per comma-separated piece, each trimmed and lower-cased |
| Auth.AllowedEmails | lib/auth.ts:5-10 | the allowlist holds each normalised non-empty piece once and nothing else; it never holds "" |
| Auth.AllowedEmailsLowered | lib/auth.ts:8 | every allowlist entry is already lower-case |
| Auth.SingleAddress | lib/auth.ts:5-10 | a setting without commas allows exactly its one normalised address |
| Auth.SignIn | lib/auth.ts:32-36 | with an empty allowlist every sign-in passes; otherwise exactly those whose lower-cased e-mail is listed |
| Auth.SignInCaseInsensitive | lib/auth.ts:34-35 | addresses that differ only in letter case are treated alike |
| Auth.SignInNeedsEmail | lib/auth.ts:33-35 | with a non-empty allowlist, a user without an e-mail is refused |
| Auth.SignInListed | lib/auth.ts:5-10 | an address matching a piece of the setting up to case and white space is accepted |
| Auth.SignInOnlyListed | lib/auth.ts:33-35 | with a non-empty allowlist, every accepted address matches some piece |
| Auth.Jwt | lib/auth.ts:37-40 | with an account, the token takes the account's access token; without one it is unchanged; other claims never change |
| Auth.SessionCallback | lib/auth.ts:41-44 | the session takes the token's access token and nothing else in it changes |
| SearchRoute.TypeMime | app/api/drive/search/route.ts:27-29 | `docs`, `sheets` and `slides` map to the document, spreadsheet and presentation MIME types; any other or absent value maps to nothing |
| SearchRoute.SearchClauses | app/api/drive/search/route.ts:18-29 | the query starts with the trash clause; a text clause follows iff `q` is non-empty, by name iff `nameOnly` is exactly "1", with the route's escaping; a MIME clause comes last iff the type is known |
| SearchRoute.BuildClauses | app/api/drive/search/route.ts:18-29 | the handler's pushes build exactly those clauses |
| SearchRoute.SearchQuery | app/api/drive/search/route.ts:18-32 | the query sent to Drive starts with `trashed = false`, followed by ` and ` and the text clause when there is text |
| SearchRoute.SearchQueryStartsWithTrashed | app/api/drive/search/route.ts:18-32 | every query starts with `trashed = false`, and is only that with neither text nor a known type |
| SearchRoute.SearchQueryFull | app/api/drive/search/route.ts:18-32 | text and type give the three clauses in order, joined by ` and ` |
| SearchRoute.RouteQueryEndsLiteralEarly | app/api/drive/search/route.ts:22-23 | searching for `a'b'` sends `fullText contains 'a\'b''`, whose literal closes before the clause ends |
| SearchRoute.EscapedTextClause | app/api/drive/search/route.ts:22-23 | with every backslash and apostrophe escaped, the literal of the text clause closes exactly at the clause's last character and holds `q`, for every `q`; it is the route's clause when `q` has no backslash and at most one apostrophe |
| SearchRoute.IndexSet | app/api/drive/search/route.ts:37-40 | there is an index set iff the cache has an index, and it holds exactly the cached ids |
| SearchRoute.InSubtree | app/api/drive/search/route.ts:42-46 | with an index, a file is in the subtree iff its id is indexed; without one, iff it is the root or lists the root among its parents, so a file without `parents` counts only when it is the root (partner: `SearchAfterRefresh` ties the index case to the crawl) |
| SearchRoute.SubtreeFilter | app/api/drive/search/route.ts:42-47 | the result is an order-preserving subsequence of the results; with an index, exactly the files whose id is indexed; without one, exactly those that are the root or list it as a parent |
| SearchRoute.Get | app/api/drive/search/route.ts:6-50 | without a session: 401 and no Drive query; with one: the built query is sent, and the answer is exactly `SubtreeFilter` of the results: the subtree's files, in order, each as often as Drive returned it |
| SearchRoute.Refresh | app/api/index/refresh/route.ts:6-14 | without a session: 401 and the cache unchanged; with one: the cache holds exactly the ids of the crawl to depth 10, stamped with the clock; it has an index, and the count is their number |
| SearchRoute.SearchAfterRefresh | app/api/drive/search/route.ts:42-47 | after a refresh, search keeps exactly the results whose id the depth-10 crawl reaches |
| Client.Html | app.js:14 | no string pieces render as ""; otherwise the output starts with the first string piece (partners: `HtmlSnoc`, `HtmlTemplate`, `HtmlOneValue` give the output piece by piece) |
| Client.Pieces | app.js:14 | the flattened array alternates each string piece with its value, or "" when the value is missing |
| Client.HtmlSnoc | app.js:14 | one more string piece appends that piece and its value to the output |
| Client.HtmlTemplate | app.js:14 | with one value fewer than string pieces, nothing follows the last string piece |
| Client.HtmlOneValue | app.js:14 | `a${x}b` renders as a, then x or "", then b |
| Client.IndexKey | app.js:90 | the storage key is `biomichi_index_` followed by the root id |
| Client.IndexKeyInjective | app.js:90 | different roots never share a storage key |
| Client.FullReachIsReach | app.js:96-106 | on a folder graph with an empty level, the unbounded crawl's result is the bounded result for any bound past that level |
| Client.FullReachComplete | app.js:96-105 | the root and every child listed for every folder reachable through folder-typed children are in the unbounded result |
| Client.SelfLoopLevel | app.js:97-105 | for a root that lists itself as a folder child, every level holds the root |
| Client.SelfLoopNeverEnds | app.js:97-105 | on that folder cycle, listing the root queues it again and no level is ever empty, so the crawl's termination condition fails |
| Client.AddListed | app.js:102-105 | every listed file's id is recorded once, and the folder ids are queued in listing order |
| Client.ListNext | app.js:98-105 | one turn of the loop keeps the crawl invariant |
| Client.CrawlDescendants | app.js:89-110 | a stored index is returned, without repeats, and storage is left alone; otherwise the crawl terminates, returns each reachable id once, and stores exactly that result under the root's key |
| Client.RefreshIndex | app.js:147 | the refresh button always crawls afresh and leaves the new result stored under the key |
| Client.ClientClauses | app.js:120-122 | the query starts with the trash clause; a text clause follows iff the trimmed text is non-empty, with every apostrophe escaped; the type comes last, verbatim, iff it is non-empty |
| Client.BuildClientClauses | app.js:119-122 | the handler's pushes build exactly the client's clauses |
| Client.ClientQuery | app.js:114-123 | the query string starts with the trash clause, is that clause alone for blank input and no type, and for non-blank input continues with ` and fullText contains '`, the escaped trimmed input and a closing quote |
| Client.ClientTextLiteral | app.js:120-123 | for trimmed input without a backslash, the client's text literal closes exactly at its quote and holds the trimmed input, whatever follows; for every type the query starts with the trash clause |
| Client.ClientQueryLiteral | app.js:120-123 | for non-blank trimmed input without a backslash, the literal inside the query itself reads back exactly the trimmed input, whatever type follows |
| Client.Search | app.js:112-126 | without a token: no query and storage unchanged, whatever the storage and the Drive tree; otherwise the index is stored first (a stored one is left as it is, otherwise the crawl result is stored under the root's key and nothing else changes), even when the listing then fails; the built query is sent; a response without `files` fails; the shown files are, in order and with Drive's repeats, exactly the results whose id is in the index |

## Left out

- HTTP: `fetch`, request URLs and parameters other than the query, and the
  errors thrown on a non-OK response are not modelled. Neither are
  `orderBy`, `fields` and `pageSize`. A listing is the first page Drive
  returns; pagination is left out, as it is in the code.
- NextAuth, the Google provider, OAuth token issuance and revocation, `gapi`
  and `google.accounts.oauth2` are foreign code. Whether a request has a
  session is a boolean parameter.
- The user interface is not modelled: `renderFiles`, `setSignedInUI`,
  `initSignin`, the index badge, the `alert`, `buildActivity`, `main` and
  its event wiring (apart from the refresh button), `app/page.tsx` and
  `app/layout.tsx`.
- `app/api/drive/activity/route.ts` forwards an opaque payload. Only the
  request body it sends is modelled.
- `Date.now()` is the parameter `now`, and date formatting is left out.
- Async interleaving is left out: calls run one after another. The cache is
  one object passed to the handlers. Its sharing through a process global
  across concurrent requests is not modelled.
- `localStorage` values are JSON text. The model stores the id array itself
  and leaves out JSON encoding, parsing, and a stored value that is not
  valid JSON.
- Text: `toLowerCase` is modelled for ASCII letters only. `trim` is modelled
  for ASCII white space, U+00A0, U+FEFF, U+2028 and U+2029, and not for the
  other Unicode space separators.
- Html: values are strings or missing. JavaScript's conversion of other
  values to text is not modelled.
- Client.CrawlDescendants: on a fresh crawl it requires the folders
  reachable from the root to run out at some depth. With a reachable folder
  cycle, `app.js` loops forever (see Findings). The model does not describe
  that non-terminating run.
- Client.CrawlDescendants: the client's `driveList` has no `|| []` fallback,
  so a listing without `files` throws. The model's listing of a folder that
  is absent from the map is empty. Only `Client.Search` models the missing
  `files` case, as `ListingFailed`.
- Drive's query parser is not part of this model. `Query.ReadLiteral` is
  the reading rule assumed for a quoted literal: a backslash takes the next
  character as it is, and the first other apostrophe closes the literal.
  How Drive treats a backslash before other characters, or a literal left
  open, is not modelled.
- Drive.CrawlDescendants and Client.CrawlDescendants: the results are
  specified as a set with no repeats. The exact breadth-first order of the
  ids is not stated, and nothing the code promises depends on it.

## Findings

| source | as written | input that shows it | evidently intended | confidence | as-written member | corrected member |
|---|---|---|---|---|---|---|
| app/api/drive/search/route.ts:22-23 | `qParam.replace("'", "\\'")` with a string pattern escapes only the first apostrophe, so a second one closes the quoted literal of the Drive query early | `q = a'b'` gives the clause `fullText contains 'a\'b''`, whose literal holds `a'b` and leaves a stray quote | escape every apostrophe, as `app.js:121` does with `/'/g`, and every backslash | not executed | Query.EscapeFirstEndsLiteralEarly | SearchRoute.EscapedTextClause |
| app.js:121 | `qInput.replace(/'/g, "\\'")` escapes apostrophes but not backslashes, so a backslash in the text escapes the quote that should close the literal (the route shares this) | `a\` gives `fullText contains 'a\'`, whose literal never closes | escape every backslash as well as every apostrophe | not executed | Query.BackslashKeepsLiteralOpen | Query.ReadEscapedLiteral |
| app.js:97-105 | the unbounded crawl queues every folder child it lists and keeps no set of folders already listed, so a reachable folder cycle is listed again and again | a root folder that lists itself as a folder child | stop at folders already listed, or bound the depth as `lib/drive.ts` does | not executed | Client.SelfLoopNeverEnds | Drive.CrawlDescendants |

`SearchRoute.Get` and `Client.Search` model the code as written, with
`EscapeFirst` and `EscapeAll`. `SearchRoute.EscapedTextClause` is the
corrected clause: it uses `Query.EscapeLiteral`, for which
`Query.ReadEscapedLiteral` is proved. `Drive.CrawlDescendants`, whose depth
bound makes it terminate on any map, cyclic or not, is the corrected crawl.
