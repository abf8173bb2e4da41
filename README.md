# Contentful ID gathering and entry search, modelled in Dafny

The tool copies content between Contentful spaces. This project models two parts of it:

- **Gathering system IDs** (`recursivelyGatherSystemIDs`). The user names some root entries. The
  resolver looks each one up, first as an entry and then as an asset. For an entry, it scans
  every field and every locale for links whose ID has not been visited yet. That covers a single
  link and each link inside an array value. It sorts them into Entry links and Asset links, and
  then follows the Entry links depth-first with one shared `visited` set, so cycles and diamonds
  end. A looked-up asset reports its own ID. Entry IDs and asset IDs are collected into two
  insertion-ordered Sets, and the entry Set starts out holding the roots. If an ID that was
  reached exists neither as an entry nor as an asset, the whole call fails with
  "A system ID you provided doesn't exist as an entry or asset: <id>".
- **Searching entries** (`searchEntries`). An entry is reported when some string-valued locale
  value contains the search string, with both sides lower-cased. The report holds the entry's ID
  and its content type. It maps each matching field to the locales that matched, and gives the
  title, which is the `en-US` value of the field `name`. It also carries a web URL made from the
  URN: everything from `spaces/` onward, placed under the web application's base URL.

Files:

- `wrappers.dfy`: `Option` and `Result`.
- `content.dfy`: field values, locales and fields of an entry. Also the helpers `Elems` and
  `NoDups`, which turn a sequence into a set and say it has no repeats.
- `links.dfy`: the link scan of one entry. It is written as nested loops
  (`ScanLinks`/`ScanField`/`ScanValue`/`ScanItem`), each tied to a specification function
  (`FieldLinks`, …). The lemmas then say which IDs the scan finds.
- `resolver.dfy`: the content store (`Environment`: entries by ID plus the set of asset IDs), the
  `Traversal` class that owns the mutable `visited` set, and its recursive `Expand`. Also the
  top-level `GatherSystemIds` and a worked end-to-end case. Reachability is defined by rank:
  `Within(n)` is what the roots reach in at most `n` Entry-link steps through entries.
  `Below(c, vb, n)` is the same for one expansion: what `c` reaches in at most `n` steps without
  entering the visited set `vb`. Completeness is proved with a closed-set argument. A ghost log `fetched` records every lookup.
- `search.dfy`: matching, the `matches` record, the title and the URN-to-URL conversion. Also
  the `searchEntries` loop and a worked example.

Two behaviours of the code are easy to miss. The code only records Asset links
(src/recursivelyGatherSystemIDs.ts:89-93) and expands Entry links alone (lines 106-115), so a
linked asset is never looked up: for a root that links entry `e2` and asset `a1`, the resolver
makes two lookups (`root1`, `e2`), not three. `Resolver.EndToEndScenario` proves this. A root
that resolves to an asset stays in the entry Set (line 37) and is also in the asset Set
(lines 118-121).

## Model

| member | source | states |
|---|---|---|
| Links.ScanItem | src/recursivelyGatherSystemIDs.ts:87-95 | one array element pushes its ID into the Entry or Asset bucket exactly when it is a link with a non-empty, unvisited ID of that link type |
| Links.ScanValue | src/recursivelyGatherSystemIDs.ts:85-102 | one locale value: an array contributes its element links in order; any other value contributes itself when it is such a link |
| Links.ScanField | src/recursivelyGatherSystemIDs.ts:84-103 | one field contributes its locales' links, in locale order |
| Links.ScanLinks | src/recursivelyGatherSystemIDs.ts:81-104 | the two buckets after the scan are exactly the Entry-typed and Asset-typed link IDs of all fields, in field/locale/element order |
| Links.ArrayLinksSpec | src/recursivelyGatherSystemIDs.ts:87-95 | an ID is taken from an array exactly when it is non-empty, unvisited and some element links it with that type |
| Links.ValueLinksSpec | src/recursivelyGatherSystemIDs.ts:86-102 | an ID is taken from a value exactly when the value, or an element of an array value, links it with that type |
| Links.LocaleLinksSpec | src/recursivelyGatherSystemIDs.ts:84-103 | an ID is taken from a field exactly when some locale value carries it |
| Links.FieldLinksSpec | src/recursivelyGatherSystemIDs.ts:81-104 | an ID is in a bucket if and only if it is non-empty, not visited, and linked with that type from some field and locale |
| Links.FieldLinksVisited | src/recursivelyGatherSystemIDs.ts:88 | scanning with a visited set finds exactly the unvisited part of what an unrestricted scan finds |
| Links.BucketsDisjoint | src/recursivelyGatherSystemIDs.ts:89-93 | an ID lands in both buckets only when it is linked once as Entry and once as Asset |
| Resolver.Fetch | src/recursivelyGatherSystemIDs.ts:65-73 | an ID resolves as an entry exactly when the store holds an entry for it, as an asset exactly when it holds an asset and no entry (getEntry is tried first), and is missing exactly when it holds neither |
| Resolver.Message | src/recursivelyGatherSystemIDs.ts:72 | the error text starts with the fixed lookup-failure prefix and continues with exactly the missing ID. A failed resolution returns the `LookupError` itself, and its text is rendered from it by `Message` |
| Resolver.Traversal.constructor | src/recursivelyGatherSystemIDs.ts:36 | the traversal starts with an empty visited set and no lookups |
| Resolver.Traversal.Expand | src/recursivelyGatherSystemIDs.ts:52-124 | an already visited ID gives two empty lists and changes nothing. Otherwise the ID is marked visited and looked up once. A missing ID fails with a missing ID that is reachable from the roots and from this ID without passing through an ID visited before the call. On success, the entry list is exactly the IDs newly visited besides this one, every newly visited ID is reachable from this one without passing through an ID visited before the call, every newly visited entry's links are resolved, and the asset list holds every newly reached asset and every asset link of a new entry whose target is still unvisited at the end, lists only newly reached assets and asset links of new entries, and lists no ID visited before the call. Visited only grows and stays within the reachable IDs, and the lookup log only grows |
| Resolver.AddAll | src/recursivelyGatherSystemIDs.ts:42-43 | adding IDs to a Set keeps it duplicate-free and yields the union, old elements first |
| Resolver.WithinBounded | src/recursivelyGatherSystemIDs.ts:106-115 | everything reachable is a root or the target of some entry's Entry link, so the traversal visits a finite set |
| Resolver.ReachSetMember | src/recursivelyGatherSystemIDs.ts:106-115 | the finite set of reachable IDs holds exactly the reachable IDs |
| Resolver.ReachableStep | src/recursivelyGatherSystemIDs.ts:106-115 | an Entry link of a reachable entry is reachable |
| Resolver.WithinClosed | src/recursivelyGatherSystemIDs.ts:106-115 | a set holding the roots and closed under Entry links contains every rank set |
| Resolver.ClosedHoldsReachable | src/recursivelyGatherSystemIDs.ts:106-115 | such a closed set contains every reachable ID |
| Resolver.CompleteStep | src/recursivelyGatherSystemIDs.ts:106-115 | "every entry visited since v0 has its links visited" composes across two expansions |
| Resolver.AssetsStep | src/recursivelyGatherSystemIDs.ts:113-114 | asset coverage and asset justification compose when a child's assets are appended |
| Resolver.LoopInit | src/recursivelyGatherSystemIDs.ts:75-105 | after the scan, the loop invariant holds with the scanned Entry links as the list to walk |
| Resolver.ListStep | src/recursivelyGatherSystemIDs.ts:106-113 | after a child expansion and the push of its entry IDs, the first k+1 listed IDs are expanded and every newly visited ID is listed |
| Resolver.SetsStep | src/recursivelyGatherSystemIDs.ts:106-114 | after a child expansion and the push of its asset IDs, completeness, coverage and justification still hold |
| Resolver.ReachFromMember | src/recursivelyGatherSystemIDs.ts:58-62 | the finite `ReachFrom` set holds exactly the IDs reachable from the start outside the visited set |
| Resolver.ReachFromStep | src/recursivelyGatherSystemIDs.ts:88-91 | an unvisited Entry link out of an ID that `c` reaches outside the visited set is itself reached |
| Resolver.BelowClosed | src/recursivelyGatherSystemIDs.ts:106-115 | a set that holds the start and is closed under Entry links leading outside the visited set holds everything the start reaches outside it, at every rank |
| Resolver.ReachFromClosed | src/recursivelyGatherSystemIDs.ts:106-115 | what `c` reaches outside a visited set is closed under Entry links leading outside that set |
| Resolver.ReachFromTrans | src/recursivelyGatherSystemIDs.ts:106-115 | what a child reaches outside a larger visited set lies within what its parent reaches outside the smaller one |
| Resolver.ExpandedExact | src/recursivelyGatherSystemIDs.ts:52-124 | one successful expansion of an unvisited ID visits exactly the IDs it reaches without passing through previously visited IDs, and lists all of them but itself |
| Resolver.LoopStep | src/recursivelyGatherSystemIDs.ts:106-115 | one child expansion, followed by the two pushes, preserves the loop invariant |
| Resolver.FringeInit | src/recursivelyGatherSystemIDs.ts:58-104 | after marking and scanning an entry, the visited ID and every scanned Entry link are reachable from it outside the old visited set |
| Resolver.FringeStep | src/recursivelyGatherSystemIDs.ts:106-115 | a child expansion keeps everything visited or listed within what the expanded ID reaches outside the old visited set |
| Resolver.AssetsUnvisited | src/recursivelyGatherSystemIDs.ts:88-101 | the scan never collects an Asset link whose ID was already visited |
| Resolver.LoopExit | src/recursivelyGatherSystemIDs.ts:106-123 | when the walk over the growing list ends, the entry's result meets the Expand contract |
| Resolver.RootsStep | src/recursivelyGatherSystemIDs.ts:40-44 | expanding one more root and merging its lists into the Sets keeps the top-level invariant |
| Resolver.RootsDone | src/recursivelyGatherSystemIDs.ts:46-49 | once visited is the reachable set, the entry Set is exactly the reachable IDs and the asset Set is bounded below and above. When no Asset link names an entry, the asset Set is exact |
| Resolver.GatherSystemIds | src/recursivelyGatherSystemIDs.ts:36-49 | it fails exactly when some reachable ID is missing, and the failing ID is one of those. Every lookup is of a reachable ID and no ID is looked up twice. On success, the entry Set holds the roots and is exactly the reachable IDs, and both Sets are duplicate-free. Every reachable asset and every asset link of a reachable entry is in the asset Set, unless that link names a reachable entry. Nothing else is in it. Without Asset links to entries, it is exact |
| Resolver.ScenarioOutcome | src/recursivelyGatherSystemIDs.ts:36-124 | for a root linking one entry and one asset, the contract fixes the result: entries {root1, e2}, assets {a1}, two lookups |
| Resolver.EndToEndScenario | src/recursivelyGatherSystemIDs.ts:36-124 | the same case run through the resolver: it succeeds with those Sets and never looks the linked asset up |
| Resolver.LeafRootsReach | src/recursivelyGatherSystemIDs.ts:106-115 | when no root links an entry, the reachable IDs are exactly the roots |
| Resolver.LeafRootsOutcome | src/recursivelyGatherSystemIDs.ts:36-49 | when the roots link nothing, the entry Set holds exactly the roots and the asset Set holds exactly the roots that resolve to assets |
| Search.EmptySearchMatchesEveryString | src/searchEntries.ts:24 | a search string that lower-cases to empty matches every string value and no other value |
| Search.MatchedLocales | src/searchEntries.ts:23-28 | a locale is listed if and only if its value is a string containing the search string after lower-casing; non-strings never match |
| Search.MatchedLocalesAppend | src/searchEntries.ts:23-28 | matched locales keep the field's locale order |
| Search.MatchesOfKeys | src/searchEntries.ts:22-30 | a field name is a key of `matches` if and only if some field of that name has a matching locale |
| Search.MatchesOfValue | src/searchEntries.ts:27-29 | with distinct field names, `matches[name]` is exactly that field's matched locales |
| Search.HasMatchIff | src/searchEntries.ts:37 | `matches` is non-empty if and only if some locale value of some field matches |
| Search.CollectMatches | src/searchEntries.ts:20-30 | the field loop builds exactly the `matches` record that `MatchesOf` defines |
| Search.FindField | src/searchEntries.ts:33 | absent exactly when no field has the name. Otherwise it gives the first field of that name |
| Search.FindLocale | src/searchEntries.ts:34 | absent exactly when no locale has the code. Otherwise it gives the first value for it |
| Search.Title | src/searchEntries.ts:32-35 | no `name` field means no title. When the first `name` field has an `en-US` locale, the title is the first such value, and otherwise there is none |
| Search.IndexOf | src/searchEntries.ts:52 | finds the first occurrence at or after the start position, or reports none |
| Search.LineStart | src/searchEntries.ts:52 | the start of the line containing a position, just after the last line terminator before it |
| Search.FirstOccurrenceUnique | src/searchEntries.ts:52 | the first occurrence of `spaces/` is unique |
| Search.LineStartUnique | src/searchEntries.ts:52 | the line start before a position is unique |
| Search.ConvertUrnToUrl | src/searchEntries.ts:51-54 | a URN without `spaces/` is unchanged. Otherwise, the line holding the first `spaces/` is replaced from its start by the base URL, a slash and the text from `spaces/` to the end of the URN |
| Search.ConvertSingleLine | src/searchEntries.ts:51-54 | for a one-line URN, the URL is the base URL, a slash, and the URN from its first `spaces/` on |
| Search.SearchAppend | src/searchEntries.ts:18-46 | results keep input order: searching a concatenation concatenates the results |
| Search.SearchLength | src/searchEntries.ts:16-48 | there are never more reports than entries |
| Search.ReportSource | src/searchEntries.ts:37-44 | every report is the report of some input entry that has a match. It carries that entry's ID, converted URN, matches, content type and title |
| Search.ReportPresent | src/searchEntries.ts:37-44 | every input entry with a match gets its report |
| Search.SearchEntries | src/searchEntries.ts:12-49 | the forEach loop returns exactly the reports that `Reports` defines |
| Search.ExampleUrl | src/searchEntries.ts:51-54 | `crn:spaces/s1` under base URL `https://app` becomes `https://app/spaces/s1` |
| Search.ExampleSearch | src/searchEntries.ts:12-54 | searching `cAT` finds an entry by its `name` in `en-US` only (the other locale is not a string), reports title `Cat` and the URL under the base URL |

## Left out

- Client, space and environment setup (src/recursivelyGatherSystemIDs.ts:20-34). These are
  network calls. Their two "incorrect ID" errors are not modelled. The store is the
  `Environment` value given as a parameter.
- Asynchrony. Each `await` is modelled as a synchronous lookup in the store. The recursion is
  strictly sequential in the source too.
- A lookup is one getEntry-then-getAsset probe. The model treats any failure of getEntry as "not
  an entry". Transport errors are not distinguished from a missing ID.
- A returned asset's `sys.id` is taken to equal the requested ID.
- Resolver.GatherSystemIds: the asset Set is given by lower and upper bounds, not exactly. An
  Asset-typed link whose ID was visited before the scan is skipped, so in a store where an Asset
  link names an entry the result depends on traversal order. It is exact when no Asset link names
  an entry (`AssetLinksTyped`).
- Resolver.Traversal.Expand: the order of IDs in the returned lists is not specified, and
  neither are duplicates in the asset list. The entry list's set is stated exactly. The asset
  list's set is given by bounds: an Asset link to an ID visited during the same call, before or
  after the scan that meets it, is listed or not depending on traversal order, as for
  `Resolver.GatherSystemIds`. Asset links to IDs visited before the call are never listed.
- `Object.keys` order. Fields, locales and array elements are given as sequences in the object's
  own iteration order. JavaScript lists integer-like keys first; that ordering comes from the
  input and is not modelled.
- A link object carrying a `sys.id` that is not a string. The model's link IDs are strings, and
  a missing or empty ID is the empty string.
- `toLocaleLowerCase`. It is locale- and Unicode-dependent, so it is the parameter `lower`. The
  worked example uses ASCII lower-casing.
- `CONTENTFUL_URL`. It is imported from src/constants.ts, but that file does not
  define it. It is the parameter `baseUrl`. A `$` inside it would be read as a replacement
  pattern; the model assumes there is none.
- Search.Title: the source types the title as a string, but the `en-US` value can be any field
  value. The model returns that value as is. A `name` field holding `null` is not modelled.
- The other source files (configuration, merge and copy utilities, the command-line interface
  and UI) are not part of this model.
