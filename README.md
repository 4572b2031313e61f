# Trails browser core, modelled in Dafny

Trails is an Electron web browser. Its sidebar shows open pages as a tree of *trails*. The
model covers the parts of its renderer and main process that hold the browser's own logic:

- **Trail tree** (`TrailTypes`, `TrailActions`). The nodes live in a record keyed by id.
  Each node names its parent and lists its children, and a separate list orders the
  top-level trails. The sidebar's state updaters are modelled here:
  - drag-and-drop moves and moving a trail to the top level;
  - closing a trail, which promotes its children into its place and archives it;
  - bulk deletion of the selection, toggling selection, and pinning a tab.
- **Link de-duplication** (`UrlDedup`). A module-level map drops a second link event for the
  same url within one second.
- **Virtualized trail list** (`TrailList`):
  - the pre-order flattening of the expanded tree;
  - the window of rows the list renders for a scroll position.
- **Address-bar suggestions** (`Suggestions`):
  - the fuzzy matcher;
  - the candidates from common domains, open link trails and archived trails;
  - the ranking that keeps the best eight.
- **Tracker blocking** (`TrackerList`): the hostname test against the built-in domain lists,
  and the request patterns generated from them.
- **Password vault** (`PasswordStore`, `PasswordTools`):
  - hex coding, the encryption framing and the vault record;
  - create, verify, load, save, update, delete and re-key;
  - the password generator, the strength score and its label and colour.
- **Bookmark store** (`BookmarkStore`):
  - the pure state transitions and the queries;
  - the HTML escaper and the Netscape bookmark-file exporter.

`Wrappers`, `Text` and `Seqs` hold the `Option` type and the JavaScript string and array
operations the code relies on (`toLowerCase` on ASCII, `startsWith`, `includes`, `filter`,
`indexOf` and `splice`, with JavaScript's treatment of a missing element).

Each stateful object of the source is a class: the persisted vault is
`PasswordStore.VaultStore` and the url map is `UrlDedup.RecentUrls`. Every loop of the
source is a method proved equal to a specification function, and the properties are proved
about that function. The React state updaters are pure functions of the previous state, and
so is the model.

## Model

| member | source | states |
|---|---|---|
| TrailTypes.WalkEnds | trails-forge/src/renderer/src/App.tsx:982-990 | when the parent links are acyclic, the walk up from any node leaves the record after finitely many steps |
| TrailTypes.MeetsStep | trails-forge/src/renderer/src/App.tsx:983-989 | past a node that is not the dragged one, the ancestor walk meets the dragged node iff the rest of the walk does |
| TrailTypes.NoSelfParentWithin | trails-forge/src/renderer/src/types.ts:1-16 | with acyclic parent links no node is its own parent |
| TrailTypes.ListedOnce | trails-forge/src/renderer/src/types.ts:70-81 | in a well-formed forest a node appears exactly once: in the root list if parentless, else in its parent's children only |
| TrailTypes.RelinkPreservesForest | trails-forge/src/renderer/src/App.tsx:993-1032 | moving one node under a parent that is not its descendant keeps the forest well formed: keys, parent links, listings and acyclicity |
| TrailTypes.RelinkChainsEnd | trails-forge/src/renderer/src/App.tsx:984-990 | re-linking a node under a non-descendant keeps every parent chain finite |
| TrailTypes.PromotedPreservesForest | trails-forge/src/renderer/src/App.tsx:1186-1223 | removing a node whose children move up to its parent (or to the root list) keeps the forest well formed |
| TrailTypes.PromotedChainsEnd | trails-forge/src/renderer/src/App.tsx:1186-1223 | re-pointing the children of a removed node at its parent keeps parent chains finite |
| TrailTypes.PromotedAdopt | trails-forge/src/renderer/src/App.tsx:1186-1223 | each child of the closed trail survives and takes the closed trail's parent |
| TrailTypes.NotOwnParent | trails-forge/src/renderer/src/types.ts:1-16 | in a forest no trail is its own parent |
| TrailActions.DetachFromParent | trails-forge/src/renderer/src/App.tsx:996-1004 | step 1 of a move: same keys, ids and parent links; only children lists change, and only by losing the dragged id |
| TrailActions.Attach | trails-forge/src/renderer/src/App.tsx:1006-1033 | step 2 of a move adds the dragged record under its key and leaves the other keys as they were |
| TrailActions.Relocate | trails-forge/src/renderer/src/App.tsx:993-1036 | a move changes only the node record and root list: active id, archive, selection and pins are untouched, and no key is added or lost |
| TrailActions.Move | trails-forge/src/renderer/src/App.tsx:956-1036 | a refused move (missing node, drop on itself, new parent equal to or below the dragged trail) returns the state unchanged |
| TrailActions.MoveIntoSubtreeRefused | trails-forge/src/renderer/src/App.tsx:960-990 | dropping a trail, in any position, on itself or on a trail of its own subtree is refused and leaves the state unchanged |
| TrailActions.ChainReaches | trails-forge/src/renderer/src/App.tsx:982-990 | the `while (check)` ancestor walk returns true exactly when the walk from the new parent meets the dragged trail |
| TrailActions.MoveTrail | trails-forge/src/renderer/src/App.tsx:956-1036 | `handleMoveTrail`, with its validation loop, computes exactly `Move` |
| TrailActions.DetachFacts | trails-forge/src/renderer/src/App.tsx:996-1004 | in a forest, detaching removes the dragged id from every children list, keeping the lists duplicate-free |
| TrailActions.MoveRelinks | trails-forge/src/renderer/src/App.tsx:993-1032 | an accepted move re-links exactly the dragged trail to its new parent (the target, or the target's parent) |
| TrailActions.MovePreservesForest | trails-forge/src/renderer/src/App.tsx:956-1036 | every move, accepted or refused, keeps the trail tree a well-formed forest; in particular no cycle is created |
| TrailActions.DetachRemoves | trails-forge/src/renderer/src/App.tsx:996-1004 | in a forest, detaching filters the dragged id out of each children list, in order |
| TrailActions.InsertIndexPlaces | trails-forge/src/renderer/src/App.tsx:1017-1031 | splicing at the computed index puts the dragged id immediately before or after the target |
| TrailActions.MoveInsidePlacement | trails-forge/src/renderer/src/App.tsx:1007-1014 | a drop inside appends the trail to the target's children, expands the target and gives the trail the target as parent |
| TrailActions.MoveBesidePlacement | trails-forge/src/renderer/src/App.tsx:1015-1033 | a drop before or after places the trail right next to the target among the target's siblings (or the roots), with the target's parent |
| TrailActions.MoveToRoot | trails-forge/src/renderer/src/App.tsx:1041-1083 | a missing trail, or a parentless one already at the top level, is left alone; otherwise the trail loses its parent and ends in the root list, appended unless present |
| TrailActions.MoveToRootRelinks | trails-forge/src/renderer/src/App.tsx:1041-1083 | in a forest, moving a child to the top level re-links it as a root appended at the end |
| TrailActions.MoveToRootPreservesForest | trails-forge/src/renderer/src/App.tsx:1041-1083 | moving a trail to the top level keeps the forest well formed |
| TrailActions.Reparent | trails-forge/src/renderer/src/App.tsx:1203-1218 | the children `forEach` keeps the set of keys; the parent links it sets are stated by `ReparentSets` |
| TrailActions.ReparentSets | trails-forge/src/renderer/src/App.tsx:1203-1218 | after the `forEach`, exactly the listed present children have the new parent and no other record changed |
| TrailActions.Promote | trails-forge/src/renderer/src/App.tsx:1186-1219 | promoting the children keeps the set of keys; where the children go is stated by `ClosePromotes` and `ClosePlacement` |
| TrailActions.Archived | trails-forge/src/renderer/src/App.tsx:1229-1234 | the archive entry carries the fresh id and the time, and holds the closed node alone, detached from the tree |
| TrailActions.PushArchive | trails-forge/src/renderer/src/App.tsx:1253 | the new entry comes first, followed by the previous entries, truncated to 50 in total |
| TrailActions.Close | trails-forge/src/renderer/src/App.tsx:1178-1256 | a missing or locked trail is not closed; otherwise it is removed from nodes and roots and archived first, and the active id changes only if it was the closed one |
| TrailActions.ForestClosable | trails-forge/src/renderer/src/App.tsx:1186-1223 | in a forest the conditions the promotion relies on hold for every trail |
| TrailActions.ClosePromotes | trails-forge/src/renderer/src/App.tsx:1186-1223 | in a forest, closing removes the trail and promotes its children to its parent, or to the root list |
| TrailActions.ClosePreservesForest | trails-forge/src/renderer/src/App.tsx:1178-1256 | closing a trail keeps the forest well formed |
| TrailActions.ReparentChildren | trails-forge/src/renderer/src/App.tsx:1203-1218 | the `forEach` loop computes exactly `Reparent` |
| TrailActions.CloseTrail | trails-forge/src/renderer/src/App.tsx:1178-1256 | `handleCloseTrail` computes exactly `Close` |
| TrailActions.ClosePlacement | trails-forge/src/renderer/src/App.tsx:1186-1223 | in a forest, the closed trail's children take its place, in order, in its parent's children or the root list, and take its parent |
| TrailActions.CloseUnderParentPlaces | trails-forge/src/renderer/src/App.tsx:1194-1223 | under a parent, the children replace the closed trail where it stood, and the root list is unchanged |
| TrailActions.CloseAtRootPlaces | trails-forge/src/renderer/src/App.tsx:1208-1223 | at the top level, the children replace the closed trail where it stood in the root list |
| TrailActions.ReplaceRemoves | trails-forge/src/renderer/src/App.tsx:1210-1223 | splicing distinct new items in place of an id and then filtering the id out replaces it in place |
| TrailActions.CloseActive | trails-forge/src/renderer/src/App.tsx:1236-1241 | closing the active trail activates its first child, else its parent, else the first root, else nothing, and the id activated is present |
| TrailActions.FirstTruthy | trails-forge/src/renderer/src/App.tsx:1240 | the `\|\|` chain over non-empty ids picks the first one present |
| TrailActions.Deletable | trails-forge/src/renderer/src/App.tsx:1403 | the ids to delete are the selected ids not naming a locked trail, each listed once |
| TrailActions.DeleteOne | trails-forge/src/renderer/src/App.tsx:1409-1429 | one step of the deletion loop removes exactly that key |
| TrailActions.DeleteAll | trails-forge/src/renderer/src/App.tsx:1409-1429 | the deletion loop adds no key; which keys and list entries it removes is stated by `DeleteAllKeys` and `DeleteAllUnlists` |
| TrailActions.DeleteOneKeys | trails-forge/src/renderer/src/App.tsx:1409-1429 | one more step removes one more id and leaves the ids and parents of the rest as they were |
| TrailActions.DeleteAllKeys | trails-forge/src/renderer/src/App.tsx:1409-1429 | after the loop, exactly the listed ids are gone and the survivors keep their ids and parents |
| TrailActions.DeleteOneUnlists | trails-forge/src/renderer/src/App.tsx:1409-1429 | each step keeps every remaining list free of deleted ids and keeps all the others |
| TrailActions.DeleteAllUnlists | trails-forge/src/renderer/src/App.tsx:1409-1429 | after the loop, every children list and the root list hold exactly their entries that were not deleted |
| TrailActions.BulkDelete | trails-forge/src/renderer/src/App.tsx:1401-1439 | nothing deletable leaves the state as it was; otherwise the selection is cleared, and an active trail that is not deleted stays active |
| TrailActions.DeleteEach | trails-forge/src/renderer/src/App.tsx:1409-1429 | the `forEach` over the ids computes exactly `DeleteAll` |
| TrailActions.BulkDeleteTrails | trails-forge/src/renderer/src/App.tsx:1401-1439 | `handleBulkDelete` computes exactly `BulkDelete` |
| TrailActions.BulkDeleteKeys | trails-forge/src/renderer/src/App.tsx:1401-1439 | exactly the deletable ids are removed; locked trails survive with their ids and parents |
| TrailActions.BulkDeleteUnlists | trails-forge/src/renderer/src/App.tsx:1409-1429 | in a forest, no list names a deleted trail afterwards, and no other entry is lost |
| TrailActions.BulkDeleteOrphans | trails-forge/src/renderer/src/App.tsx:1409-1429 | a child left behind by a deleted parent still names it, so bulk deletion can break the forest |
| TrailActions.BulkDeleteActive | trails-forge/src/renderer/src/App.tsx:1436 | deleting the active trail activates the first remaining root, which is present, or nothing |
| TrailActions.ToggleSelect | trails-forge/src/renderer/src/App.tsx:1389-1399 | the id's selection flips (every copy leaves, or it is appended); every other id and all other state are unchanged |
| TrailActions.ToggleSelectTwice | trails-forge/src/renderer/src/App.tsx:1389-1399 | selecting and then deselecting a trail restores the state |
| TrailActions.PinTab | trails-forge/src/renderer/src/App.tsx:1086-1099 | an already pinned url changes nothing; otherwise exactly one tab is appended |
| TrailActions.PinTabPins | trails-forge/src/renderer/src/App.tsx:1086-1099 | afterwards the url is pinned, urls stay distinct, and pinning it again changes nothing |
| UrlDedup.Purged | trails-forge/src/renderer/src/App.tsx:322-326 | keeps exactly the entries recorded within the last two seconds, with their times |
| UrlDedup.RecentUrls.Admit | trails-forge/src/renderer/src/App.tsx:318-327 | a url seen less than a second ago (at a non-zero time) is refused and the map is untouched; otherwise it is recorded at `now`, old entries are purged, and repeats within the next second are refused |
| UrlDedup.RecentUrls.Suppressed | trails-forge/src/renderer/src/App.tsx:319 | a suppressed url was recorded less than a second before; a url recorded at a non-zero time is suppressed from then until a second has passed |
| TrailList.Flatten | trails-forge/src/renderer/src/components/VirtualizedTrailList.tsx:21-43 | every item shows a present node at least as deep as the starting depth |
| TrailList.Entry | trails-forge/src/renderer/src/components/VirtualizedTrailList.tsx:28-40 | a root yields items iff it is present, and its own visible item comes first |
| TrailList.FlattenConcat | trails-forge/src/renderer/src/components/VirtualizedTrailList.tsx:26-41 | flattening a concatenation of id lists concatenates their flattenings |
| TrailList.FlattenCons | trails-forge/src/renderer/src/components/VirtualizedTrailList.tsx:26-41 | pre-order: a trail's entry comes before those of the trails after it |
| TrailList.FlattenOutline | trails-forge/src/renderer/src/components/VirtualizedTrailList.tsx:21-43 | the flattened list is an outline: it starts at the given depth and each row is at most one level deeper than the row before |
| TrailList.EntryOutline | trails-forge/src/renderer/src/components/VirtualizedTrailList.tsx:28-40 | a single trail's entry is an outline rooted at its depth |
| TrailList.OutlineConcat | trails-forge/src/renderer/src/components/VirtualizedTrailList.tsx:26-41 | two outlines at one depth concatenate to an outline |
| TrailList.FlattenCollapsed | trails-forge/src/renderer/src/components/VirtualizedTrailList.tsx:35 | with every trail collapsed, the list holds only the given ids, all at the starting depth |
| TrailList.FlattenListsRoots | trails-forge/src/renderer/src/components/VirtualizedTrailList.tsx:28-33 | every present root gets a visible row at the starting depth |
| TrailList.FlattenTree | trails-forge/src/renderer/src/components/VirtualizedTrailList.tsx:21-43 | `flattenTree`, with its loop and recursion, computes exactly `Flatten` |
| TrailList.CeilRows | trails-forge/src/renderer/src/components/VirtualizedTrailList.tsx:66 | the ceiling of a height in rows of 28 pixels |
| TrailList.EndIndex | trails-forge/src/renderer/src/components/VirtualizedTrailList.tsx:64-67 | the window never ends past the list |
| TrailList.VisibleItems | trails-forge/src/renderer/src/components/VirtualizedTrailList.tsx:63-69 | the rendered rows are the items from the start index on, in order |
| TrailList.WindowCoversViewport | trails-forge/src/renderer/src/components/VirtualizedTrailList.tsx:60-113 | every item that overlaps the viewport is rendered, at top offset 28 times its index |
| TrailList.StartIndex | trails-forge/src/renderer/src/components/VirtualizedTrailList.tsx:63 | the first rendered row lies five rows above the row under the viewport's top edge, or is row 0 when the top edge is within the first six rows |
| TrailList.TotalHeight | trails-forge/src/renderer/src/components/VirtualizedTrailList.tsx:60 | the spacer holds exactly one 28-pixel row per item |
| TrailList.TopOffset | trails-forge/src/renderer/src/components/VirtualizedTrailList.tsx:104-107 | the k-th rendered row sits at a whole row, its index in the full list being the start index plus k, and, for a non-negative scroll position, no further down than k rows below it |
| TrailList.RowsInsideSpacer | trails-forge/src/renderer/src/components/VirtualizedTrailList.tsx:104-113 | rendered rows lie inside the spacer and are 28 pixels apart |
| Suggestions.Greedy | trails-forge/src/renderer/src/components/SearchSuggestions.tsx:61-71 | the greedy scan matches at most the whole query; when it matches all of it is stated by `GreedyComplete` |
| Suggestions.SubsequenceDropHead | trails-forge/src/renderer/src/components/SearchSuggestions.tsx:61-71 | a matched subsequence stays matched without its first character |
| Suggestions.GreedyComplete | trails-forge/src/renderer/src/components/SearchSuggestions.tsx:61-71 | the greedy scan matches the whole query iff the query is a subsequence of the target |
| Suggestions.PrefixSubsequence | trails-forge/src/renderer/src/components/SearchSuggestions.tsx:55-58 | a prefix is a subsequence |
| Suggestions.ContainsSubsequence | trails-forge/src/renderer/src/components/SearchSuggestions.tsx:58-61 | a substring is a subsequence |
| Suggestions.FuzzyScoreTiers | trails-forge/src/renderer/src/components/SearchSuggestions.tsx:49-72 | case-insensitively: a prefix scores 100, another substring 80, a scattered subsequence 10 per query character, anything else 0 |
| Suggestions.FuzzyScorePositive | trails-forge/src/renderer/src/components/SearchSuggestions.tsx:49-72 | a non-empty query scores above zero iff it is a case-insensitive subsequence of the target |
| Suggestions.LongScatteredOutranksPrefix | trails-forge/src/renderer/src/components/SearchSuggestions.tsx:55-71 | a query longer than ten characters scores a scattered match above a prefix match |
| Suggestions.FuzzyScore | trails-forge/src/renderer/src/components/SearchSuggestions.tsx:49-72 | an empty query or target scores 0; a score above 100 is ten per query character |
| Suggestions.FuzzyScoreValues | trails-forge/src/renderer/src/components/SearchSuggestions.tsx:49-72 | a score is 0, 80, 100 or ten per query character, nothing else |
| Suggestions.GreedyStep | trails-forge/src/renderer/src/components/SearchSuggestions.tsx:63-69 | one step of the scan advances the query exactly when the characters match |
| Suggestions.FuzzyMatch | trails-forge/src/renderer/src/components/SearchSuggestions.tsx:49-72 | `fuzzyMatch`, with its loop, computes exactly `FuzzyScore` |
| Suggestions.ScatteredScore | trails-forge/src/renderer/src/components/SearchSuggestions.tsx:61-71 | the scan scores ten per query character when the greedy scan matches all of them, else 0 |
| Suggestions.DomainScore | trails-forge/src/renderer/src/components/SearchSuggestions.tsx:99 | a domain scores above zero iff its name or its title matches |
| Suggestions.PageScore | trails-forge/src/renderer/src/components/SearchSuggestions.tsx:114-116 | the larger of the title and url scores |
| Suggestions.DomainCandidates | trails-forge/src/renderer/src/components/SearchSuggestions.tsx:97-109 | every matching domain is suggested, and every suggestion is a positive-scored domain from the list |
| Suggestions.TrailCandidates | trails-forge/src/renderer/src/components/SearchSuggestions.tsx:111-126 | every matching link trail is suggested five below its score; nothing else is |
| Suggestions.ArchivedCandidates | trails-forge/src/renderer/src/components/SearchSuggestions.tsx:128-144 | every matching archived trail is suggested ten below its score; nothing else is |
| Suggestions.InsertByScore | trails-forge/src/renderer/src/components/SearchSuggestions.tsx:147 | inserting one suggestion adds exactly it to the multiset |
| Suggestions.InsertByScoreRanked | trails-forge/src/renderer/src/components/SearchSuggestions.tsx:147 | inserting into a ranked list keeps it ranked |
| Suggestions.SortByScore | trails-forge/src/renderer/src/components/SearchSuggestions.tsx:147 | the sort ranks by descending score and is a permutation |
| Suggestions.TopBest | trails-forge/src/renderer/src/components/SearchSuggestions.tsx:148 | the first eight of a ranked list are ranked, come from it and score at least as much as any entry left out |
| Suggestions.SuggestionListBest | trails-forge/src/renderer/src/components/SearchSuggestions.tsx:88-148 | an empty query shows nothing; otherwise at most eight candidates are shown, ranked, and none left out scores above a shown one |
| Suggestions.Top | trails-forge/src/renderer/src/components/SearchSuggestions.tsx:148 | the result is a prefix of the ranked list, of length the smaller of eight and the list's length |
| Suggestions.SuggestionList | trails-forge/src/renderer/src/components/SearchSuggestions.tsx:88-148 | an empty query shows nothing, and at most eight suggestions are shown |
| Suggestions.SuggestionListSources | trails-forge/src/renderer/src/components/SearchSuggestions.tsx:94-144 | every shown suggestion is a matching domain, link trail or archived trail |
| Suggestions.PushDomainMatches | trails-forge/src/renderer/src/components/SearchSuggestions.tsx:98-109 | the domain loop appends exactly the domain candidates |
| Suggestions.PushTrailMatches | trails-forge/src/renderer/src/components/SearchSuggestions.tsx:112-126 | the trail loop appends exactly the trail candidates |
| Suggestions.PushArchivedMatches | trails-forge/src/renderer/src/components/SearchSuggestions.tsx:129-144 | the archive loop appends exactly the archived candidates |
| Suggestions.MatchPage | trails-forge/src/renderer/src/components/SearchSuggestions.tsx:114-116 | the better of the title and url scores is exactly `PageScore` |
| Suggestions.BuildSuggestions | trails-forge/src/renderer/src/components/SearchSuggestions.tsx:88-148 | the effect computes exactly `SuggestionList` |
| TrackerList.FindMatch | trails-forge/src/trackerList.ts:145-151 | the loop reports a match iff the hostname equals a listed domain or ends with "." followed by it |
| TrackerList.ShouldBlockUrl | trails-forge/src/trackerList.ts:140-155 | a url is blocked iff it parses and its hostname is listed among the tracker or fingerprinting domains |
| TrackerList.SubdomainMatches | trails-forge/src/trackerList.ts:146 | every subdomain of a matching host matches too |
| TrackerList.HostMatches | trails-forge/src/trackerList.ts:146 | a match is the domain itself, or the domain as whole trailing labels preceded by a dot |
| TrackerList.SubdomainListed | trails-forge/src/trackerList.ts:145-149 | every subdomain of a blocked host is blocked |
| TrackerList.NoPartialLabel | trails-forge/src/trackerList.ts:146 | a host that merely ends with a domain's text, not at a label boundary, does not match it |
| TrackerList.PathEntryNeverMatches | trails-forge/src/trackerList.ts:6-110 | a list entry containing '/' can never match a hostname |
| TrackerList.LookalikeCovers | trails-forge/src/trackerList.ts:146 | "notdoubleclick.net" can only be matched by itself or by "net", not by "doubleclick.net" |
| TrackerList.Patterns | trails-forge/src/trackerList.ts:126-134 | two patterns per domain; which ones is stated by `PatternsAt` |
| TrackerList.PatternsAt | trails-forge/src/trackerList.ts:127-128 | each domain yields its subdomain pattern, then its bare pattern, at positions 2k and 2k+1 |
| TrackerList.PatternsConcat | trails-forge/src/trackerList.ts:126-134 | the patterns of two lists are the patterns of each, in order |
| TrackerList.PushPatterns | trails-forge/src/trackerList.ts:126-129 | the loop appends exactly the domains' patterns |
| TrackerList.GetBlockPatterns | trails-forge/src/trackerList.ts:123-137 | the tracker domains' patterns followed by the fingerprinting domains', two per domain |
| PasswordStore.HexDigit | trails-forge/src/renderer/src/stores/passwordStore.ts:42-44 | a value below 16 becomes a lower-case hex digit |
| PasswordStore.ByteToHex | trails-forge/src/renderer/src/stores/passwordStore.ts:42-44 | a byte becomes two lower-case hex digits (`padStart(2, '0')`) |
| PasswordStore.BytesToHex | trails-forge/src/renderer/src/stores/passwordStore.ts:42-44 | the hex text is twice as long as the bytes and all lower-case hex |
| PasswordStore.BytesToHexConcat | trails-forge/src/renderer/src/stores/passwordStore.ts:42-44 | hex encoding distributes over concatenation |
| PasswordStore.HexValue | trails-forge/src/renderer/src/stores/passwordStore.ts:47-53 | a hex digit's value is below 16 |
| PasswordStore.HexDecode | trails-forge/src/renderer/src/stores/passwordStore.ts:47-53 | `hexToBytes` yields one byte per two characters; a trailing odd character is dropped |
| PasswordStore.HexDecodeAt | trails-forge/src/renderer/src/stores/passwordStore.ts:47-53 | byte k is `parseInt` of characters 2k and 2k+1 |
| PasswordStore.HexToBytes | trails-forge/src/renderer/src/stores/passwordStore.ts:47-53 | the loop over the array computes exactly `HexDecode` |
| PasswordStore.ByteHexRoundTrip | trails-forge/src/renderer/src/stores/passwordStore.ts:42-53 | parsing a byte's two digits gives the byte back |
| PasswordStore.HexRoundTrip | trails-forge/src/renderer/src/stores/passwordStore.ts:42-53 | `hexToBytes(bytesToHex(b)) == b` |
| PasswordStore.HexDecodeConcat | trails-forge/src/renderer/src/stores/passwordStore.ts:47-53 | decoding an even-length prefix and the rest separately is decoding the whole |
| PasswordStore.VerificationSalt | trails-forge/src/renderer/src/stores/passwordStore.ts:142 | the verification hash's salt is the vault salt plus the three bytes `parseInt` makes of "verify" (0, 0, 15), so it differs from the key salt |
| PasswordStore.HexDecodeVerify | trails-forge/src/renderer/src/stores/passwordStore.ts:142 | "verify" decodes to the bytes 0, 0, 15 |
| PasswordStore.Encrypt | trails-forge/src/renderer/src/stores/passwordStore.ts:92-108 | the ciphertext is the hex of the IV followed by the sealed data |
| PasswordStore.DecryptEncrypt | trails-forge/src/renderer/src/stores/passwordStore.ts:92-127 | decrypting under the same key gives the plaintext back |
| PasswordStore.Decrypt | trails-forge/src/renderer/src/stores/passwordStore.ts:110-127 | with sound primitives, a ciphertext that decodes to a nonce followed by the sealing of a text under that nonce and the key decrypts to that text |
| PasswordStore.NewVault | trails-forge/src/renderer/src/stores/passwordStore.ts:161-173 | a new vault is empty, at version 1, stores the salt in hex, and is unlocked by its master password |
| PasswordStore.PlainCredential | trails-forge/src/renderer/src/stores/passwordStore.ts:213-244 | a saved record is created and updated at the same time |
| PasswordStore.OpenAll | trails-forge/src/renderer/src/stores/passwordStore.ts:190-210 | loading decrypts one credential per stored record; what a saved or updated record loads as is stated by `LoadAfterSave` and `LoadAfterUpdate` |
| PasswordStore.FindCredential | trails-forge/src/renderer/src/stores/passwordStore.ts:255-256 | `findIndex`: the first record with that id, or none when no record has it |
| PasswordStore.WithoutId | trails-forge/src/renderer/src/stores/passwordStore.ts:283 | the filter keeps exactly the records with another id |
| PasswordStore.ResealAll | trails-forge/src/renderer/src/stores/passwordStore.ts:379-383 | re-encryption keeps one record per credential; what each decrypts to is stated by `OpenReseal` |
| PasswordStore.OpenReseal | trails-forge/src/renderer/src/stores/passwordStore.ts:379-383 | a re-encrypted record decrypts to the credential it came from (empty notes read as absent) |
| PasswordStore.Rekeyed | trails-forge/src/renderer/src/stores/passwordStore.ts:367-394 | the re-keyed vault has as many records, version 1, and is unlocked by the new password |
| PasswordStore.VaultStore.VaultExists | trails-forge/src/renderer/src/stores/passwordStore.ts:156-158 | true iff a vault is stored |
| PasswordStore.VaultStore.CreateVault | trails-forge/src/renderer/src/stores/passwordStore.ts:161-173 | the stored vault becomes a fresh vault unlocked by the master password, replacing any earlier one |
| PasswordStore.VaultStore.VerifyMasterPassword | trails-forge/src/renderer/src/stores/passwordStore.ts:176-187 | true iff a vault exists and the password's hash equals the stored one |
| PasswordStore.VaultStore.LoadCredentials | trails-forge/src/renderer/src/stores/passwordStore.ts:190-210 | no vault loads nothing; otherwise every record is decrypted in order |
| PasswordStore.VaultStore.SaveCredential | trails-forge/src/renderer/src/stores/passwordStore.ts:213-244 | with no vault nothing is saved; otherwise the encrypted record is appended and the plaintext returned |
| PasswordStore.VaultStore.UpdateCredential | trails-forge/src/renderer/src/stores/passwordStore.ts:247-274 | true iff a vault exists holding that id; then only the first such record is rewritten, else nothing changes |
| PasswordStore.VaultStore.DeleteCredential | trails-forge/src/renderer/src/stores/passwordStore.ts:277-290 | true iff a vault exists, and then every record with that id is removed |
| PasswordStore.VaultStore.ChangeMasterPassword | trails-forge/src/renderer/src/stores/passwordStore.ts:367-394 | nothing is written unless the old password verifies; then the vault is re-keyed under the new password and a new salt |
| PasswordStore.VaultStore.DeleteVault | trails-forge/src/renderer/src/stores/passwordStore.ts:397-399 | no vault remains |
| PasswordStore.LoadAfterSave | trails-forge/src/renderer/src/stores/passwordStore.ts:190-244 | after a save, loading gives the earlier credentials plus the saved one |
| PasswordStore.LoadAfterUpdate | trails-forge/src/renderer/src/stores/passwordStore.ts:190-274 | an updated record loads as the old plaintext with the updates applied |
| PasswordStore.RekeyPreservesPlaintext | trails-forge/src/renderer/src/stores/passwordStore.ts:367-394 | loading under the new password gives the credentials loaded under the old one |
| PasswordStore.DeleteUnknownId | trails-forge/src/renderer/src/stores/passwordStore.ts:277-290 | deleting an id no record has leaves the records as they were, yet reports true |
| PasswordStore.DeleteKeepsOrder | trails-forge/src/renderer/src/stores/passwordStore.ts:283 | deletion keeps the order of the remaining records |
| PasswordTools.GeneratePassword | trails-forge/src/renderer/src/stores/passwordStore.ts:293-319 | the password has the requested length, and each character is the pool character the random word selects |
| PasswordTools.AlphabetMembers | trails-forge/src/renderer/src/stores/passwordStore.ts:307-313 | the character classes are exactly the ASCII upper-case letters, lower-case letters and digits, and no symbol is alphanumeric |
| PasswordTools.AlphanumericMembers | trails-forge/src/renderer/src/stores/passwordStore.ts:313 | the fallback pool is the union of the letters and digits |
| PasswordTools.PoolMembers | trails-forge/src/renderer/src/stores/passwordStore.ts:307-313 | the pool is never empty, and holds exactly the characters of the enabled classes (letters and digits when none is enabled) |
| PasswordTools.Pool | trails-forge/src/renderer/src/stores/passwordStore.ts:307-313 | the pool is non-empty, starts with the upper-case letters when they are enabled, is the letters and digits when no class is, and otherwise has the summed length of the enabled alphabets |
| PasswordTools.ClassCount | trails-forge/src/renderer/src/stores/passwordStore.ts:331-338 | between one and four classes for a non-empty password, none for the empty one |
| PasswordTools.Strength | trails-forge/src/renderer/src/stores/passwordStore.ts:322-346 | the score lies in 0..100, and the empty password scores 0 |
| PasswordTools.StrengthGrowsWithExtension | trails-forge/src/renderer/src/stores/passwordStore.ts:322-346 | extending a password never lowers its score unless the extension costs more penalty points than the password had: length points and classes only grow |
| PasswordTools.StrengthOfPenaltyFree | trails-forge/src/renderer/src/stores/passwordStore.ts:322-346 | a non-empty password without penalty points is never clamped: it scores its length points plus 15 per class |
| PasswordTools.StrengthOfLongPenaltyFree | trails-forge/src/renderer/src/stores/passwordStore.ts:322-346 | a penalty-free password of ten or more characters earns all 40 length points: it scores 40 plus 15 per class, at least 55, never clamped |
| PasswordTools.StrengthIgnoresLengthPastTen | trails-forge/src/renderer/src/stores/passwordStore.ts:322-346 | past ten characters length no longer counts: two passwords with the same number of classes and the same penalty points score the same |
| PasswordTools.StrengthOfDigitRun | trails-forge/src/renderer/src/stores/passwordStore.ts:341-343 | "123456" scores 0 |
| PasswordTools.NoTripleRun | trails-forge/src/renderer/src/stores/passwordStore.ts:342 | without two equal neighbours there is no run of three |
| PasswordTools.NoWeakPrefix | trails-forge/src/renderer/src/stores/passwordStore.ts:343 | a password not starting with p, 1 or q has none of the weak prefixes |
| PasswordTools.StrengthOfRepeatedLetter | trails-forge/src/renderer/src/stores/passwordStore.ts:322-346 | "aaaaaaaa" scores 27 |
| PasswordTools.StrengthOfMixedClasses | trails-forge/src/renderer/src/stores/passwordStore.ts:322-346 | "aB3$aB3$" scores 92 |
| PasswordTools.StrengthMixedBeatsRepeated | trails-forge/src/renderer/src/stores/passwordStore.ts:322-346 | the mixed password scores above the repeated one |
| PasswordTools.StrengthPenalisesMixedCaseLetters | trails-forge/src/renderer/src/stores/passwordStore.ts:341 | "abcDEF" scores 44: the case-insensitive single-class test penalises letters of both cases |
| PasswordTools.Band | trails-forge/src/renderer/src/stores/passwordStore.ts:349-364 | one of five bands |
| PasswordTools.BandMonotone | trails-forge/src/renderer/src/stores/passwordStore.ts:349-364 | a higher score never falls in a lower band |
| PasswordTools.StrengthLabel | trails-forge/src/renderer/src/stores/passwordStore.ts:349-355 | the band's label; "Very Weak" iff below 20, "Very Strong" iff at least 80 |
| PasswordTools.StrengthColor | trails-forge/src/renderer/src/stores/passwordStore.ts:358-364 | the band's colour |
| BookmarkStore.AddBookmark | trails-forge/src/renderer/src/stores/bookmarkStore.ts:60-86 | exactly one bookmark is appended, with the given fields; folders are unchanged |
| BookmarkStore.ApplyBookmarkUpdate | trails-forge/src/renderer/src/stores/bookmarkStore.ts:89-102 | the keys carried replace the fields; id and creation time stay; the update time is `now` |
| BookmarkStore.UpdateBookmark | trails-forge/src/renderer/src/stores/bookmarkStore.ts:89-102 | the bookmarks with the id are updated, the others are unchanged, and the count stays |
| BookmarkStore.DeleteBookmark | trails-forge/src/renderer/src/stores/bookmarkStore.ts:105-112 | exactly the bookmarks with the id are removed, the others kept with their multiplicity |
| BookmarkStore.DeleteBookmarkKeepsOrder | trails-forge/src/renderer/src/stores/bookmarkStore.ts:105-112 | the remaining bookmarks keep their order: deletion distributes over concatenation of the list |
| BookmarkStore.AddFolder | trails-forge/src/renderer/src/stores/bookmarkStore.ts:115-135 | exactly one folder is appended |
| BookmarkStore.ApplyFolderUpdate | trails-forge/src/renderer/src/stores/bookmarkStore.ts:138-151 | the keys carried replace the fields; id and creation time stay |
| BookmarkStore.UpdateFolder | trails-forge/src/renderer/src/stores/bookmarkStore.ts:138-151 | the folders with the id are updated and the others unchanged |
| BookmarkStore.DeleteFolder | trails-forge/src/renderer/src/stores/bookmarkStore.ts:154-164 | exactly the folders with the id are removed, the others kept with their multiplicity; its bookmarks move to the top level, other bookmarks are unchanged |
| BookmarkStore.DeleteFolderKeepsOrder | trails-forge/src/renderer/src/stores/bookmarkStore.ts:154-164 | the remaining folders keep their order: deletion distributes over concatenation of the folder list |
| BookmarkStore.DeleteFolderLeavesSubfoldersDangling | trails-forge/src/renderer/src/stores/bookmarkStore.ts:154-164 | a subfolder of the deleted folder survives and still names it as parent |
| BookmarkStore.DeleteFolderKeepsAcyclic | trails-forge/src/renderer/src/stores/bookmarkStore.ts:154-164 | deleting a folder creates no folder cycle |
| BookmarkStore.DeleteFolderExportsAtRoot | trails-forge/src/renderer/src/stores/bookmarkStore.ts:154-263 | after its folder is deleted, a bookmark is exported at the top level |
| BookmarkStore.GetBookmarksInFolder | trails-forge/src/renderer/src/stores/bookmarkStore.ts:167-169 | exactly the bookmarks in that folder, each with its multiplicity in the list |
| BookmarkStore.InFolderKeepsOrder | trails-forge/src/renderer/src/stores/bookmarkStore.ts:167-169 | a folder's bookmarks come in list order: the query distributes over concatenation |
| BookmarkStore.GetSubfolders | trails-forge/src/renderer/src/stores/bookmarkStore.ts:172-174 | exactly the folders with that parent |
| BookmarkStore.SubfoldersCounted | trails-forge/src/renderer/src/stores/bookmarkStore.ts:172-174 | each folder with that parent is listed as often as in the folder list, any other not at all |
| BookmarkStore.SubfoldersKeepOrder | trails-forge/src/renderer/src/stores/bookmarkStore.ts:172-174 | subfolders come in folder-list order: the query distributes over concatenation |
| BookmarkStore.SearchBookmarks | trails-forge/src/renderer/src/stores/bookmarkStore.ts:177-184 | exactly the bookmarks whose title, url or a tag contains the lower-cased query, case-insensitively |
| BookmarkStore.SearchEmptyQuery | trails-forge/src/renderer/src/stores/bookmarkStore.ts:177-184 | the empty query returns every bookmark |
| BookmarkStore.SearchKeepsOrder | trails-forge/src/renderer/src/stores/bookmarkStore.ts:177-184 | search keeps the order of the bookmarks |
| BookmarkStore.GetBookmarksByTag | trails-forge/src/renderer/src/stores/bookmarkStore.ts:194-196 | exactly the bookmarks carrying the tag, each with its multiplicity in the list |
| BookmarkStore.ByTagKeepsOrder | trails-forge/src/renderer/src/stores/bookmarkStore.ts:194-196 | tagged bookmarks come in list order: the query distributes over concatenation |
| BookmarkStore.IsBookmarked | trails-forge/src/renderer/src/stores/bookmarkStore.ts:199-201 | a url is bookmarked iff filtering the list for that url leaves something |
| BookmarkStore.AddBookmarkMarksUrl | trails-forge/src/renderer/src/stores/bookmarkStore.ts:199-201 | a url just added is bookmarked, and adding it changes the answer for no other url |
| BookmarkStore.GetBookmarkByUrl | trails-forge/src/renderer/src/stores/bookmarkStore.ts:199-206 | a bookmark is found iff the url is bookmarked, and it is one with that url |
| BookmarkStore.InsertSorted | trails-forge/src/renderer/src/stores/bookmarkStore.ts:187-191 | inserting into a strictly sorted list keeps it strictly sorted and adds only the new tag |
| BookmarkStore.SortStrings | trails-forge/src/renderer/src/stores/bookmarkStore.ts:187-191 | the sort is strictly ascending and holds the same tags |
| BookmarkStore.GetAllTags | trails-forge/src/renderer/src/stores/bookmarkStore.ts:187-191 | exactly the tags in use, sorted ascending, each once |
| BookmarkStore.ReplaceAll | trails-forge/src/renderer/src/stores/bookmarkStore.ts:266-272 | every character of the result comes from the replacement or is a kept character of the input |
| BookmarkStore.ReplaceAllConcat | trails-forge/src/renderer/src/stores/bookmarkStore.ts:266-272 | replacement distributes over concatenation |
| BookmarkStore.ReplaceAllAbsent | trails-forge/src/renderer/src/stores/bookmarkStore.ts:266-272 | a string without the character is unchanged |
| BookmarkStore.EscapeHtml | trails-forge/src/renderer/src/stores/bookmarkStore.ts:266-272 | the escaped text contains no `<`, `>` or `"` |
| BookmarkStore.EscapeHtmlConcat | trails-forge/src/renderer/src/stores/bookmarkStore.ts:266-272 | escaping distributes over concatenation |
| BookmarkStore.EscapeHtmlChar | trails-forge/src/renderer/src/stores/bookmarkStore.ts:266-272 | one character escapes to its entity, or to itself |
| BookmarkStore.EscapeHtmlPerChar | trails-forge/src/renderer/src/stores/bookmarkStore.ts:266-272 | the chained replacements escape each character independently: `&` is not escaped twice |
| BookmarkStore.EscapeLessThan | trails-forge/src/renderer/src/stores/bookmarkStore.ts:266-272 | a `<` becomes `&lt;` and the text around it is escaped on its own |
| BookmarkStore.Spaces | trails-forge/src/renderer/src/stores/bookmarkStore.ts:238 | four spaces per indentation level |
| BookmarkStore.NatToString | trails-forge/src/renderer/src/stores/bookmarkStore.ts:253 | a timestamp's decimal text is non-empty and all digits |
| BookmarkStore.ChildNotOnPath | trails-forge/src/renderer/src/stores/bookmarkStore.ts:242-248 | with acyclic folders a subfolder is never on the path rendered so far, so the recursion ends |
| BookmarkStore.RenderFolder | trails-forge/src/renderer/src/stores/bookmarkStore.ts:237-257 | `renderFolder` computes exactly the folder's block |
| BookmarkStore.RenderBookmarks | trails-forge/src/renderer/src/stores/bookmarkStore.ts:251-254 | the bookmark loop yields one line per bookmark |
| BookmarkStore.RenderSubfolders | trails-forge/src/renderer/src/stores/bookmarkStore.ts:242-248 | the subfolder loop yields every subfolder's block in order |
| BookmarkStore.RenderSubfolder | trails-forge/src/renderer/src/stores/bookmarkStore.ts:244-247 | one iteration yields one subfolder's block |
| BookmarkStore.ExportToHtml | trails-forge/src/renderer/src/stores/bookmarkStore.ts:228-263 | `exportToHTML` computes exactly the exported document |
| BookmarkStore.BookmarkLinesContain | trails-forge/src/renderer/src/stores/bookmarkStore.ts:251-254 | each bookmark's line occurs in the lines |
| BookmarkStore.SubfolderBlocksPrefix | trails-forge/src/renderer/src/stores/bookmarkStore.ts:242-248 | rendering more subfolders only extends the text |
| BookmarkStore.SubfolderBlocksContain | trails-forge/src/renderer/src/stores/bookmarkStore.ts:242-248 | each rendered subfolder's block occurs in the text |
| BookmarkStore.ExportContainsFolder | trails-forge/src/renderer/src/stores/bookmarkStore.ts:228-263 | every folder reachable from the top level is exported, at its depth |
| BookmarkStore.ExportContainsBookmark | trails-forge/src/renderer/src/stores/bookmarkStore.ts:228-263 | every bookmark in a reachable folder is exported, indented by its depth |

## Left out

- Cryptography: PBKDF2 and AES-256-GCM are the fields of a `Primitives` value. The one
  property used is that decryption under the encryption key returns the plaintext
  (`Primitives.Sound`), and it is a hypothesis of the lemmas that need it. A wrong password
  that still decrypts, and authentication failures, are not modelled.
- Persistence: the localStorage reads and writes, JSON (de)serialisation and the `try`/`catch`
  that turns a parse failure into an empty result. The stored vault is the field
  `VaultStore.stored`; a bookmark state is a value.
- The async code is sequential here. Ids, clock readings, random salts, IVs and generator
  words are parameters. The IVs for re-keying come from a function of the record index.
- URL parsing: `shouldBlockUrl` takes the hostname `new URL` would give, or `None` when the
  url does not parse.
- Lower-casing is ASCII only. JavaScript's full Unicode case mapping is not modelled.
- Strings are sequences of Unicode scalar values, while JavaScript strings are sequences
  of UTF-16 code units. The two agree as long as no character lies above U+FFFF; such a
  character counts once here and twice in JavaScript. The members below are affected.
- `PasswordTools.Strength`: the length points count scalar values, not UTF-16 code units,
  so a password with characters above U+FFFF can score fewer length points here than in the
  source.
- `PasswordTools.HasTripleRun`: compares scalar values, where the source's `/(.)\1{2,}/`
  compares code units. Three equal characters above U+FFFF form a run here, but not in the
  source, where their surrogate halves alternate.
- `Suggestions.FuzzyScore`: ten points per query character count scalar values, not UTF-16
  code units.
- `BookmarkStore.GetAllTags`: the tags are sorted by `Text.Less`, which compares scalar
  values. `Array.prototype.sort` compares UTF-16 code units, which orders characters above
  U+FFFF before those in U+E000..U+FFFF; the two orders differ only there.
- `Text.Less`: compares scalar values, not UTF-16 code units (see `GetAllTags`).
- React rendering, window and IPC calls, the scroll and resize handlers and the toast
  messages. `handleMoveTrail` and `handleCloseTrail` also tell the main process which view to
  show; only the state they return is modelled.
- `TrailActions.MoveTrail`: requires acyclic parent links. On a cycle, the source's
  validation `while` loop never ends.
- `TrailList.FlattenTree`: requires a height bound on the expanded part of the tree (the
  ghost `h`). On a cyclic expanded tree, `flattenTree` recurses without end.
- `BookmarkStore.ExportToHtml`: requires acyclic folders. On a folder cycle, `renderFolder`
  recurses without end.
- `TrailList.VisibleItems`: `scrollTop` and `containerHeight` are integers, not
  floating-point pixel values.
- `Object.values(nodes)` enumeration order is the input sequence `nodes` of
  `Suggestions.SuggestionList`.
- `Suggestions.SortByScore`: ranks by score and is a permutation. It does not state
  stability. Ties keep candidate order in this insertion sort, but `Array.prototype.sort`'s
  stability is not claimed.
- `Suggestions.SuggestionList`: history suggestions exist in the `Suggestion` type of the
  source but are never produced. Icons and favicons are carried but have no property.
- `TrackerList.LookalikeCovers`: it is not shown that "notdoubleclick.net" itself and "net"
  are absent from the 98-entry list. Membership in a list literal that long is out of the
  solver's reach here, so the lemma states which entries could match it.
- `importFromHTML`, `importFromJSON` and `exportToJSON` (DOM parsing and JSON) are not
  modelled. Neither are the restore and history handlers of the archive or the remaining
  sidebar handlers.
- Behaviour of the code worth noting:
  - `createVault` overwrites an existing vault without checking;
  - `deleteCredential` returns true for an unknown id (`PasswordStore.DeleteUnknownId`);
  - the single-class strength penalty uses a case-insensitive pattern, so letter-only
    passwords of both cases are penalised (`PasswordTools.StrengthPenalisesMixedCaseLetters`);
  - the verification salt appends the non-hex text "verify", which `parseInt` turns into
    the bytes 0, 0, 15 (`PasswordStore.VerificationSalt`);
  - a scattered fuzzy match of a query longer than ten characters scores above 100 and
    outranks a prefix match (`Suggestions.LongScatteredOutranksPrefix`);
  - tracker entries containing a path can never match (`TrackerList.PathEntryNeverMatches`).
