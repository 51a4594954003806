# Subject trie and stand-alone dispatcher of the comet messaging core

This project models the in-process publish/subscribe core of the comet
server in Dafny. It has three parts.

- **The subscription trie (`Sublist`).**
  - Patterns are `.`-separated tokens. A `*` token stands for exactly one
    subject token. A `>` token stands for one or more trailing tokens.
  - The trie keeps one level per token. Each level has a map of literal
    children plus a `*` slot and a `>` slot. A node holds the
    subscriptions filed under the pattern that ends there.
  - `Insert` files a subscription. `Remove` deletes the first equal entry
    and prunes nodes that became empty. `Match` resolves a literal subject
    by recursive descent.
  - Answers are kept in a cache keyed by subject. Inserts append to
    matching cache entries, and removes drop them.
  - The sublist keeps a 32-bit subscription count and operation counters.
    It also reports `Stats` and the depth of the tree (`numLevels`).
- **The stand-alone dispatcher (`standAloneImpl`).**
  - `QueueSubscribe` files a subscription record under its pattern.
    `Subscribe` is the same with the empty queue name. A subscriber's
    `Unsubscribe` removes its own record.
  - `Publish` matches the topic. It then hands the message to every
    subscription with the empty queue name, and to one member of each
    named queue group.
- **Service topic naming.** `ServiceInfo.Topics` builds the publish and
  subscribe topics of a service.

Modules, one per file:

- `Tokens` (tokens.dfy): splitting a subject at `.`, joining it back, and
  what a well-formed pattern or topic is.
- `Trie` (trie.dfy): the tree as an immutable datatype, with insertion,
  first-entry removal and the matching walk.
  - Everything is related to a reference semantics: `SubsAt`, the
    subscriptions stored under a key path, and `KeyMatch`, token-wise
    matching of a key path against a subject.
  - `Candidates` enumerates every key path that matches a subject, each
    exactly once.
  - The walk is proved to return, up to order, exactly the subscriptions
    stored under those paths.
- `TrieShape` (trie_shape.dfy): the total number of stored entries,
  pruning (no empty node survives), and the depth count `visitLevel`.
- `Literals` (literals.dfy): the cache-layer test `matchLiteral`, as a
  character walk, as the source's loop, and as the source runs it on the
  UTF-8 bytes of Go strings.
- `Sublists` (sublists.dfy): the sublist state, meaning the trie, the
  wrapped count, the cache, its bound and the counters. It defines the
  public operations and the invariants they keep.
  - `Valid`: the count is the number of stored entries modulo 2^32, the
    trie is pruned, and the cache is within its bound.
  - `CacheCoherent`: every cached answer equals a fresh walk, up to
    order.
- `Messaging` (messaging.dfy): the dispatcher over a sublist of
  subscription records, with the selection `Publish` makes and the
  messaging test scenario.
- `Services` (services.dfy): `ServiceInfo.Topics`.

Things the source leaves to the environment are parameters here:

- The random index `rand.Intn(len(group))` is a chooser function
  `choose(queue, n)`, required to return a value below `n`.
- The random subscription id from `genId` is a counter `nextSid` kept by
  the dispatcher, so every record is fresh.
- The random cache eviction that the source leaves as a stub (see
  Findings) is a `victim` key supplied by the caller. It must be a cached
  key whenever the cache is full and the subject is not cached.
- A subscription's handler is an opaque number.

The dispatcher in
`internal/service/repository/messaging/stand_alone/messaging_impl.go`
duplicates the one in `internal/messaging.go` line for line. Both are
modelled by the one `Messaging` module. The `New()` sublist constructor
that duplicate calls is not part of this model. It is taken to be
`internal/sublist.go`'s `NewSublist`.

## Model

| member | source | states |
|---|---|---|
| Tokens.Split | internal/sublist.go:75-84 | Splitting gives at least one token, and no token contains a separator. |
| Tokens.SplitCount | internal/sublist.go:75-84 | The number of tokens is the number of `.` characters plus one. |
| Tokens.JoinSplit | internal/sublist.go:75-84 | Joining the tokens with `.` gives back the subject. |
| Tokens.SplitJoin | internal/sublist.go:75-84 | Splitting the join of one or more separator-free tokens gives back those tokens. |
| Tokens.SplitAtSep | internal/sublist.go:75-84 | A separator-free head followed by `.` is split off as the first token, and the rest splits as before. |
| Tokens.JoinSepCount | internal/sublist.go:75-84 | `Join`, the inverse of the split, puts exactly one `.` between neighbouring separator-free tokens and no other `.`. |
| Tokens.SplitBeforeLast | internal/sublist.go:75-84 | A `.` followed by a separator-free tail adds that tail as the last token. |
| Trie.TokenKey | internal/sublist.go:95-102 | The slot of a token is chosen by its first character only: `*` gives the partial wildcard, `>` the full wildcard, anything else the literal token itself. The empty token, which no insert files, is looked up as the literal slot `""`. |
| Trie.PathOf | internal/sublist.go:86-94 | A pattern has one key per token, and at least one. |
| Trie.KeyMatchLength | internal/sublist.go:205-232 | A token-wise match uses up the path exactly when it uses up the subject. |
| Trie.KeyMatchCases | internal/sublist_test.go:76-113 | A `*` in the middle or at the end matches one token. `a.>` matches `a.b.c` but not `a`. A `>` that is not last matches nothing. A literal path matches neither a longer nor a shorter subject. |
| Trie.SetChild | internal/sublist.go:103-113 | Setting a slot makes it hold the given node and leaves every other slot as it was. |
| Trie.NumNodes | internal/sublist.go:318-327 | The node count of a level is 0 exactly when no slot, literal or wildcard, holds a child. |
| Trie.NoChildNoNodes | internal/sublist.go:318-327 | A level has no child in any slot exactly when its literal map is empty and both wildcard slots are unset. |
| Trie.IsEmpty | internal/sublist.go:306-315 | A node is empty, and so pruned, exactly when it holds no subscription and its next level has no child in any slot. |
| Trie.InsertLevel | internal/sublist.go:86-119 | Walking or creating one node per key, the insert appends the subscription at the end of the entries under the full path. Every top-level slot other than the first key's is left as it was. |
| Trie.RemoveLevel | internal/sublist.go:243-290 | The removal reports success exactly when the subscription is stored under the path. A failed removal leaves the level exactly as it was. Every top-level slot other than the first key's is untouched. |
| Trie.MatchLevel | internal/sublist.go:205-232 | A walk of a level without nodes, or of no tokens, returns nothing. Trie.MatchGathers states the full answer. |
| Trie.Reattach | internal/sublist.go:282-287 | After a removal below it, a node's slot is cleared only when the node became empty, and never keeps an empty node; otherwise it holds the updated node. Every other slot is unchanged. |
| Trie.ReattachChild | internal/sublist.go:282-287 | When the slot is cleared, the node it held stored nothing under any path below it, so pruning loses no subscription. |
| TrieShape.ReattachTotal | internal/sublist.go:282-287 | Re-hanging a node changes the stored total by the node's entries minus those of the node it replaces. |
| Trie.PruneNode | internal/sublist.go:293-304 | Pruning empties exactly the named slot and leaves every other slot as it was. |
| Trie.SubsAtInsert | internal/sublist.go:86-124 | After an insert, the entries under the pattern's own path gain the new subscription at the end. The entries under every other path are unchanged. |
| Trie.InsertOnlyAt | internal/sublist.go:86-124 | An insert changes the stored entries at the pattern's own path only, where it appends the subscription. |
| Trie.FirstIndex | internal/sublist.go:334-341 | An index is found exactly when the subscription is present. It is the first position that holds it. |
| Trie.RemoveFirst | internal/sublist.go:330-344 | When the subscription is present, its first occurrence is cut out, the rest keeping their order, so the length drops by one and one copy leaves the multiset. When it is absent, the entries are unchanged. |
| Trie.SubsAtRemove | internal/sublist.go:243-290 | After a removal, the first equal entry under the pattern's path is gone. Every other path keeps its entries, even after pruning. |
| Trie.RemoveOnlyAt | internal/sublist.go:243-290 | A removal changes only the pattern's own path. Its result reports success exactly when the subscription was there. |
| Trie.CandidatesMatch | internal/sublist.go:205-232 | A key path is among the candidate paths for a subject exactly when it matches the subject token-wise. |
| Trie.CandidatesDistinct | internal/sublist.go:205-232 | No candidate path for a subject is listed twice. |
| Trie.MatchGathers | internal/sublist.go:205-232 | Up to order, the recursive walk returns exactly the subscriptions stored under the key paths that match the subject. Each is returned as often as it is stored. |
| Trie.GatherHas | internal/sublist.go:205-232 | A subscription is in the gathered answer exactly when it is stored under one of the listed paths. |
| Trie.MatchAfterInsert | internal/sublist.go:86-124 | After an insert, a walk returns what it returned before, plus the new subscription exactly when the pattern matches the subject. |
| Trie.MatchAfterRemove | internal/sublist.go:243-290 | After a removal, a walk returns what it returned before, minus the removed subscription exactly when it was found and its pattern matches the subject. |
| TrieShape.TotalInsert | internal/sublist.go:119-120 | An insert stores exactly one more entry, even when the same pair is already stored. |
| TrieShape.TotalRemove | internal/sublist.go:274-280 | A removal stores one entry fewer when it finds the subscription, and the same number otherwise. |
| TrieShape.InsertPruned | internal/sublist.go:86-124 | An insert into a trie without empty nodes leaves no empty node. |
| TrieShape.RemovePruned | internal/sublist.go:282-287 | Bottom-up pruning after a removal leaves no empty node on the path or anywhere else. |
| TrieShape.PruneNodePruned | internal/sublist.go:293-304 | Pruning a slot of a trie without empty nodes leaves none. |
| TrieShape.LevelTotalPositive | internal/sublist.go:306-315 | In a trie without empty nodes, a level with any node stores at least one entry. |
| TrieShape.MaxOf | internal/sublist.go:410-418 | The maximum of a set of sizes bounds every member and is one of them. The maximum of the empty set is 0. |
| TrieShape.VisitLevel | internal/sublist.go:437-468 | The depth reported is never below the starting depth. What it means is stated by TrieShape.VisitDeepest. |
| TrieShape.VisitDeepest | internal/sublist.go:430-468 | The depth reported is that of the deepest node. No key path to a node, and no path with subscriptions stored at it, is longer. Below a level with a child, some path to a node is exactly that long. In a trie without empty nodes, some stored path is exactly that long. |
| TrieShape.VisitCovers | internal/sublist.go:443-467 | Every node of the trie lies no deeper than the depth `visitLevel` reports. |
| TrieShape.VisitAttained | internal/sublist.go:443-467 | Below a level with a child, some node lies exactly at the depth `visitLevel` reports. |
| TrieShape.DeepestStores | internal/sublist.go:430-468 | In a trie without empty nodes, a node at the reported depth stores a subscription. |
| TrieShape.VisitEmpty | internal/sublist.go:439-441 | A level without nodes adds no depth. |
| TrieShape.VisitChain | internal/sublist.go:432-468 | Inserting an n-token pattern into an empty trie gives a tree of depth n. |
| Literals.TokenEnd | internal/sublist.go:356-365 | Skipping a literal token stops at the next separator or at the end of the literal, and passes no separator. |
| Literals.Walk | internal/sublist.go:348-376 | From any position, whatever the walk with the end-of-literal test accepts, the walk without it accepts too. |
| Literals.MatchLiteral | internal/sublist.go:348-376 | The character-walk test accepts every pair the corrected test accepts. |
| Literals.MatchLiteralLoop | internal/sublist.go:348-376 | The source's loop, including the inner skip and the step back, computes `MatchLiteral`. |
| Literals.MatchLiteralSound | internal/sublist.go:348-376 | For a well-formed pattern and a topic with non-empty tokens, `matchLiteral` holds whenever the pattern matches the topic token-wise. |
| Literals.MatchLiteralExact | internal/sublist.go:348-376 | The corrected literal test, which also demands that the whole literal be used up. A pattern without wildcards then matches exactly the subject spelled the same. |
| Literals.MatchLiteralExactIff | internal/sublist.go:348-376 | With the check that the whole literal is consumed added, the test holds exactly when the pattern matches the topic token-wise. This needs a pattern with a `>`, if any, only in last place. |
| Literals.MatchLiteralSoundAll | internal/sublist.go:348-376 | For a well-formed pattern, the test holds for every topic with non-empty tokens that the pattern matches token-wise. |
| Literals.MatchLiteralExactAll | internal/sublist.go:348-376 | For a pattern with whole-token wildcards and `>` last, the corrected test holds of a topic with non-empty tokens exactly when the pattern matches it token-wise. |
| Literals.Utf8 | internal/sublist.go:350-351 | A character's UTF-8 encoding is one to four bytes. A character below 0x80 is its own single byte. Every byte of a longer encoding is 0x80 or above, so it is never `.`, `*` or `>`. |
| Literals.Bytes | internal/sublist.go:348-376 | ASCII text is its own byte string. |
| Literals.Leads | internal/sublist.go:350-351 | `for i := range subject` reads one byte per character, the first byte of its encoding. |
| Literals.MatchLiteralRunes | internal/sublist.go:348-376 | On ASCII pattern and subject, the source's rune-stepped byte test gives the same answer as the character walk. |
| Literals.MatchLiteralRunesMisses | internal/sublist.go:350-373 | For the pattern `é.x` and the topic `é.x`, the rune-stepped test fails, while the character walk and the token-wise match both succeed. |
| Literals.MatchLiteralCases | internal/sublist_test.go:201-211 | `matchLiteral` gives the nine results the test expects. |
| Literals.MatchLiteralExactCases | internal/sublist_test.go:201-211 | The corrected test gives the same nine results. |
| Literals.MatchLiteralAcceptsPrefix | internal/sublist.go:373-375 | `matchLiteral("foo.bar", "foo")` holds although `foo` does not match `foo.bar`. The corrected test rejects it. |
| Sublists.Wrap32 | internal/sublist.go:16 | The count wraps modulo 2^32. Values already in range are kept, and decrementing 0 gives 2^32 - 1. |
| Sublists.NewSublist | internal/sublist.go:54-65 | A new sublist stores nothing, has an empty cache bounded at 1024, zero counters, and satisfies both invariants. |
| Sublists.Count | internal/sublist.go:379 | On a valid sublist, `Count` is the number of stored entries modulo 2^32. Below 2^32 it is that number exactly. |
| Sublists.NumLevels | internal/sublist.go:430-434 | The number of levels is the length of the longest key path to a node. It is 0 exactly when the root level has no child. No stored pattern's path is longer. Without empty nodes, some stored pattern's path is exactly that long. |
| Sublists.AddToCache | internal/sublist.go:128-142 | Adding to the cache keeps its keys. Each entry either gains the new subscription at the end or is unchanged. |
| Sublists.AddToCacheGains | internal/sublist.go:128-142 | For a pattern with whole-token wildcards and `>` last, the cached answer of a topic with non-empty tokens gains the subscription exactly when the pattern matches the topic token-wise, and is unchanged otherwise. |
| Sublists.AddToCacheAsWritten | internal/sublist.go:128-142 | The as-written cache update, which selects with the rune-stepped test, keeps the cache's keys, and each entry either gains the subscription at the end or is unchanged. On an ASCII pattern, an ASCII cached topic gains it exactly when the character walk accepts the pair. |
| Sublists.RemoveFromCache | internal/sublist.go:145-157 | Dropping entries only removes keys, and every entry that stays is unchanged. For a well-formed pattern, every cached topic with non-empty tokens that the pattern matches token-wise is dropped. |
| Sublists.RemoveFromCacheAsWritten | internal/sublist.go:145-157 | The rune-stepped drop only removes keys and keeps every remaining entry. On ASCII pattern and topics it drops exactly what the character walk drops. |
| Sublists.Insert | internal/sublist.go:86-124 | An insert keeps the cache's keys and bound, and raises the inserts counter by one. |
| Sublists.InsertAsWritten | internal/sublist.go:86-124 | The as-written insert builds the same trie and keeps the cache's keys. |
| Sublists.Remove | internal/sublist.go:243-290 | Removing an absent subscription changes nothing at all. A successful removal raises the removes counter by one. The cache only loses keys. |
| Sublists.RemoveAsWritten | internal/sublist.go:243-290 | The as-written removal builds the same trie and count as the corrected one, and the cache only loses keys. |
| Sublists.Match | internal/sublist.go:160-202 | A match leaves the trie and the count alone. Afterwards the subject is cached with the returned answer. A hit changes no cache entry. A miss keeps every other cached entry, or evicts one, so the cache stays within its bound. The matches counter rises by one, and cacheHits rises by one exactly on a hit. |
| Sublists.MatchAsWritten | internal/sublist.go:160-202 | The as-written match caches the subject and keeps every earlier key, without ever evicting. |
| Sublists.StatsOf | internal/sublist.go:395-422 | `NumCache` is the number of cached subjects. `MaxFanout` bounds every cached answer's length, is reached by one of them, and is 0 for an empty cache. On a valid sublist, `NumSubs` is the stored-entry count modulo 2^32. The hit counter is reported as a count; the source reports it as the ratio `CacheHitRate` over `NumMatches`. |
| Sublists.ResetStats | internal/sublist.go:425-428 | Resetting zeroes the insert, remove, match and hit counters. It keeps the subscription count, the cache, the depth and both invariants. |
| Sublists.InsertValid | internal/sublist.go:86-124 | An insert keeps the sublist valid and stores exactly one more entry. |
| Sublists.RemoveValid | internal/sublist.go:243-290 | A removal keeps the sublist valid. It stores one entry fewer exactly when the subscription was filed under the pattern. |
| Sublists.MatchValid | internal/sublist.go:160-202 | A match keeps the sublist valid, including the cache bound. |
| Sublists.InsertCoherent | internal/sublist.go:122 | With the corrected literal test, an insert of a pattern whose `>` is last keeps every cached answer equal to a fresh walk, up to order. |
| Sublists.InsertAsWrittenCovers | internal/sublist.go:122 | With the source's literal test, on an ASCII pattern and ASCII cached topics, an insert keeps every cached answer containing at least a fresh walk's answer. |
| Sublists.RemoveCoherent | internal/sublist.go:288 | A removal keeps every cached answer equal to a fresh walk, up to order, because every entry the removal could change is dropped. |
| Sublists.MatchCoherent | internal/sublist.go:160-202 | A match, hit or miss, keeps every cached answer equal to a fresh walk, up to order. |
| Sublists.MatchGathersCandidates | internal/sublist.go:160-202 | On a coherent sublist, a match of a valid topic returns, up to order, exactly the entries stored under the matching key paths. |
| Sublists.MatchMembers | internal/sublist.go:160-202 | On a coherent sublist, a subscription is in a match's answer exactly when it is stored under some key path that matches the topic. |
| Sublists.InsertThenMatch | internal/sublist_test.go:175-192 | A match after an insert, even of a subject that was already cached, returns the earlier answer plus the new subscription exactly when its pattern matches. |
| Sublists.RemoveThenMatch | internal/sublist_test.go:175-192 | A match after a removal returns the earlier answer, minus the removed subscription exactly when it was present and its pattern matches. |
| Sublists.NumLevelsZero | internal/sublist.go:432-468 | In a trie without empty nodes, the depth is 0 exactly when nothing is stored. |
| Sublists.InsertDepth | internal/sublist_test.go:151-173 | Inserting one n-token pattern into a new sublist gives depth n. |
| Sublists.InsertRemoveCleanup | internal/sublist_test.go:151-173 | Removing that one subscription again brings the depth back to 0. |
| Sublists.MatchAsWrittenOverflows | internal/sublist.go:194-197 | Without eviction, a miss on a full cache grows the cache one entry past its bound. |
| Sublists.InsertAsWrittenPoisonsCache | internal/sublist.go:128-142 | After `foo.bar` is cached with no subscriptions, the as-written insert of `foo` appends to that answer, while a fresh walk and the corrected insert return nothing. |
| Sublists.InsertAsWrittenMissesWith | internal/sublist.go:128-142 | For a wildcard-free topic whose own pattern the rune-stepped test rejects, cached with no subscriptions: the as-written insert of that pattern leaves the cached answer empty while a fresh walk returns the new subscription, so cached answers no longer contain the walk's. The corrected insert caches the subscription. |
| Sublists.CachedAfterInsert | internal/sublist.go:86-201 | One subscription inserted under a wildcard-free topic into a new sublist, then that topic matched: the cache holds exactly that topic with that subscription. |
| Sublists.RemoveAsWrittenKeepsUnselected | internal/sublist.go:145-157 | For a topic whose own pattern the rune-stepped test rejects, cached with the one subscription filed under it: after the as-written removal the cached answer still holds the subscription while a fresh walk returns nothing. The corrected removal drops the entry. |
| Sublists.RemoveAsWrittenKeepsStaleWith | internal/sublist.go:243-290 | The same, from a new sublist after one insert and one match of that topic. |
| Sublists.RemoveAsWrittenKeepsStale | internal/sublist.go:350-373 | Insert, match and remove `é.x`: as written, the cache still answers `é.x` with the removed subscription. |
| Messaging.NewDispatcher | internal/messaging.go:74-76 | A new dispatcher stores no subscription and satisfies the dispatcher invariant. |
| Messaging.QueueSubscribe | internal/messaging.go:82-95 | The returned subscription carries the given pattern, queue and handler. It is appended under the pattern's own path and nowhere else. |
| Messaging.Subscribe | internal/messaging.go:78-80 | A plain subscription is a queue subscription with the empty queue name. |
| Messaging.Unsubscribe | internal/messaging.go:66-68 | One occurrence of the subscription's own record is removed from under its own pattern. Every other path is unchanged. If the record is not stored, nothing changes. |
| Messaging.QueueSubscribeValid | internal/messaging.go:82-95 | With the corrected insert, a subscription keeps the dispatcher invariant. The new record was stored nowhere before. |
| Messaging.QueueSubscribeAsWritten | internal/messaging.go:82-95 | The as-written subscribe issues the same record, builds the same trie and advances the id counter as the corrected one; only the cache update, made with the rune-stepped test, differs. |
| Messaging.QueueSubscribeAsWrittenCovers | internal/messaging.go:82-95 | With the source's cache update, on an ASCII pattern and ASCII cached topics, a subscription with whole-token wildcards, a `>` anywhere included, keeps the sublist valid, every record registered, and every cached answer containing a fresh walk's answer. |
| Messaging.UnsubscribeAsWritten | internal/messaging.go:66-68 | The as-written unsubscribe builds the same trie and keeps the id counter; only the cache update differs. |
| Messaging.QueueSubscribeRegistered | internal/messaging.go:82-95 | After a subscription to any pattern with non-empty tokens, such as `a.>.b`, every stored record is still filed exactly once, under its own pattern, with an id below the counter. |
| Messaging.UnsubscribeValid | internal/messaging.go:66-68 | Unsubscribing keeps the dispatcher invariant. |
| Messaging.UnsubscribeRegistered | internal/messaging.go:66-68 | After unsubscribing, every remaining record is still filed exactly once under its own pattern. |
| Messaging.UnsubscribeTwice | internal/messaging.go:66-68 | On any dispatcher where every record is filed once, whatever its pattern, after unsubscribing the record is stored nowhere, so a second call changes nothing. |
| Messaging.Filter | internal/messaging.go:102-109 | Selecting one queue name keeps exactly the matched records with that queue, as often as they occur. |
| Messaging.Partition | internal/messaging.go:100-109 | The fan-out list holds exactly the empty-queue records. There is one group for every non-empty queue name present, holding exactly that queue's records, and no empty group. |
| Messaging.Chosen | internal/messaging.go:114-117 | The record picked from a group is a matched record of that queue. |
| Messaging.Picks | internal/messaging.go:114-117 | One pick is made for each non-empty queue present: the chooser's index into that queue's group. Nothing else is picked. |
| Messaging.SelectFanOut | internal/messaging.go:111-113 | Every empty-queue record is delivered once per occurrence in the match answer. |
| Messaging.SelectQueueMember | internal/messaging.go:114-117 | A delivered queue record is its group's chosen member, delivered once. |
| Messaging.SelectOnePerQueue | internal/messaging.go:114-117 | For each non-empty queue present, exactly its chosen member is delivered, once, and no other member of that queue. |
| Messaging.SelectAbsentQueue | internal/messaging.go:114-117 | No record of a queue that is absent from the match answer is delivered. |
| Messaging.Select | internal/messaging.go:98-117 | Only matched records are delivered, and a queue record at most once. |
| Messaging.SelectWithin | internal/messaging.go:98-117 | Nothing is delivered more often than the match returned it. |
| Messaging.SelectAllFanOut | internal/messaging.go:102-113 | When the answer holds only empty-queue records, all of them are delivered. |
| Messaging.Publish | internal/messaging.go:97-120 | Publishing always reports no error. It leaves the stored subscriptions and the id counter alone. It delivers only what the match returned, so nothing when the match is empty. |
| Messaging.PublishValid | internal/messaging.go:97-120 | Publishing keeps the dispatcher invariant. |
| Messaging.PublishDeliversMatching | internal/messaging.go:97-120 | On a valid dispatcher, every delivered record's own pattern matches the published topic token-wise. |
| Messaging.SubscribeAsWrittenMisdeliversWith | internal/messaging.go:82-120 | After a publish of a topic to a new dispatcher, a subscription whose pattern the rune-stepped test selects but the exact test rejects is delivered the next publish of that topic as written, and nothing is delivered when corrected. |
| Messaging.SubscribeAsWrittenMisdelivers | internal/messaging.go:82-120 | Publish `foo.bar`, subscribe `foo`, publish `foo.bar`: as written the `foo` record is delivered, although `foo` does not match `foo.bar`; corrected, nothing is. |
| Messaging.SubscribeAsWrittenMissesWith | internal/messaging.go:82-120 | After a publish of a wildcard-free topic to a new dispatcher, subscribing under that topic's own name, which the rune-stepped test rejects: as written, the next publish of the topic delivers nothing although a fresh walk finds the record; corrected, the record is delivered. |
| Messaging.SubscribeAsWrittenMisses | internal/messaging.go:82-120 | Publish `é.x`, subscribe `é.x`, publish `é.x`: as written nobody receives it; corrected, the new record does. |
| Messaging.UnsubscribeAsWrittenDeliversWith | internal/messaging.go:66-120 | For a topic whose own pattern the rune-stepped test rejects: subscribe to it, publish it, unsubscribe. As written, the next publish still reaches the removed record; corrected, it reaches nobody and the cache is empty. |
| Messaging.UnsubscribeAsWrittenDelivers | internal/messaging.go:66-120 | The same with the topic `é.x`. |
| Messaging.ScenarioWith | internal/messaging_test.go:9-24 | After subscriptions to `a.*`, `a.*` and `a.*.*`, publishing `a.b.c` delivers only the third and caches one subject. Publishing `a.b` next delivers the first two. This holds for any spellings that split into those tokens. |
| Messaging.MessagingScenario | internal/messaging_test.go:9-24 | The same scenario with the literal patterns and topics of the test. |
| Services.Topic | internal/service.go:35-36 | A topic built from the prefix, a name and a separator-free kind splits into `$`, `service`, the name's own tokens and the kind. |
| Services.Topics | internal/service.go:34-38 | The publish and subscribe topics always differ. They split into `$`, `service`, the name's own tokens, and a last `pub` or `sub` token. |
| Services.TopicsInjective | internal/service.go:34-38 | Two services share a publish topic, or a subscribe topic, exactly when their names are equal. |
| Services.PublishNeverSubscribe | internal/service.go:34-38 | No service's publish topic is any service's subscribe topic. |
| Services.TopicsValid | internal/service.go:34-38 | A name whose tokens are all non-empty gives two topics whose tokens are all non-empty, three more than the name has, for each topic. For a dot-free name each topic has four tokens. |
| Messaging.ScenarioTokens | internal/messaging_test.go:11-22 | The test's patterns and topics split into `a`,`*`; `a`,`*`,`*`; `a`,`b`,`c`; and `a`,`b`. |
| Messaging.PublishTwice | internal/messaging_test.go:21-22 | Two publishes of different uncached topics on an empty cache each deliver their walk's answer when it holds only empty-queue records. |

## Left out

- Concurrency is not modelled: the mutex and atomics of `Sublist`, and
  the `go` statements that run handlers. Operations are sequential.
  `Publish` returns the multiset of selected subscriptions instead of
  running handlers.
- `genId` (crypto/rand plus hex) is not modelled. The dispatcher hands
  out ids from a counter. All that matters is that every record is
  distinct, as separately allocated Go records are.
- `rand.Intn` is not modelled. The chooser is a parameter, required to
  return an index within the group.
- The random eviction is not modelled as random. The evicted key is a
  parameter (see Findings).
- The float and time fields of `Stats` are not modelled: `CacheHitRate`,
  `AvgFanout`, `StatsTime` and `since`/`time.Now`. The `AvgFanout` check
  at internal/sublist_test.go:276 does not follow from the code anyway.
- Sublists.StatsOf: `NumCache` and `MaxFanout` are stated without the
  `uint32` cast. A cache within its bound of 1024 never reaches 2^32.
- The four 64-bit counters (`inserts`, `removes`, `matches`,
  `cacheHits`) are unbounded naturals, because a 64-bit wrap-around is
  out of reach.
- The subscription count does wrap at 2^32, as the source's `uint32`
  does.
- Messaging.QueueSubscribe, Messaging.Subscribe and Sublists.Insert
  require every pattern token to be non-empty. The source's insert
  indexes `t[0]` of every token and panics on an empty one. The panic
  itself is not modelled.
- Sublists.Remove: the source's removal reads `t[0]` only while it is
  still at an existing level. Where it reaches an empty token there, it
  panics. The model looks such a token up as the literal `""`, which no
  insert fills, and reports the subscription not found instead. Examples
  are a first token `""`, or `x..y` when `x` is present. Where the walk has
  already left the trie, the source and the model both return without a
  change.
- The coherence and matching theorems assume more about their inputs:
  - Topics whose tokens are all non-empty.
  - For the exact cache-coherence results, patterns whose wildcard
    characters appear only as whole tokens.
  - For Sublists.InsertCoherent, additionally a pattern whose `>` is
    last. The dispatcher invariant therefore asks this of every stored
    pattern (its `StoredSubscribable` part), and
    Messaging.QueueSubscribeValid of the new one. The registration
    lemmas (Messaging.QueueSubscribeRegistered,
    Messaging.UnsubscribeRegistered, Messaging.UnsubscribeTwice) and
    Messaging.QueueSubscribeAsWrittenCovers do not: they hold of
    patterns such as `a.>.b`, which the source files as well.

  Outside these, `matchLiteral`'s byte walk does not agree with the
  token-wise semantics.
- Sublists.InsertAsWrittenCovers states only that cached answers contain
  a fresh walk's answer, and only for an ASCII pattern and ASCII cached
  topics. On such text the source's `matchLiteral` can append to a cache
  entry whose subject the pattern does not match, so equality fails (the
  second finding). On other text it can also fail to append where it
  should, so even containment fails (the third finding,
  Sublists.InsertAsWrittenMissesWith).
- Messaging.QueueSubscribeAsWrittenCovers: the same ASCII restriction,
  for the same reason (Messaging.SubscribeAsWrittenMisses).
- A Go `nil` level and an empty level are one and the same here.
  `matchLevel`, `isEmpty` and `visitLevel` treat them alike.
- The `s.cache[k] == nil` skip in `addToCache` is not modelled. `Match`
  never caches a `nil` answer, so the skip never fires.
- Strings are sequences of characters. Splitting, the trie walk and the
  token comparisons agree with the source's byte view, because `.`, `*` and
  `>` are single bytes that never occur inside the UTF-8 encoding of
  another character. `matchLiteral` does not agree in general. It steps
  through the pattern one character at a time but through the literal one
  byte at a time. Literals.MatchLiteralRunes models that, and the third
  finding shows where it differs.
- Literals.MatchLiteral, Literals.MatchLiteralLoop: they are the source's
  `matchLiteral` only on ASCII text. On other text they are the corrected
  character walk of the third finding.
- Literals.MatchLiteralSound holds of the source only on ASCII text (see
  the third finding).
- Sublists.InsertCoherent, Sublists.InsertThenMatch: these describe the
  corrected insert. As the source runs it, an insert can append to a
  cached answer it should not touch (the second finding) and, on
  non-ASCII text, miss one it should extend (the third finding).
- Sublists.RemoveCoherent, Sublists.RemoveThenMatch: these describe the
  corrected removal of the third finding. As the source runs it on
  non-ASCII text, a removal can keep a stale cached answer
  (Sublists.RemoveAsWrittenKeepsStale).
- Messaging.UnsubscribeValid, Messaging.Unsubscribe: these use the
  corrected Sublists.Remove. As written, the invariant can fail on
  non-ASCII topics (Messaging.UnsubscribeAsWrittenDelivers).
- Messaging.QueueSubscribe, Messaging.Subscribe: these use the corrected
  Sublists.Insert of the second and third findings. The source's own
  cache update is the one Messaging.QueueSubscribeAsWritten makes.
- QueueSubscribeValid: the cache-coherence half of the invariant holds
  only for the corrected insert. As written, a subscription keeps only
  the weaker Messaging.QueueSubscribeAsWrittenCovers, and only on ASCII
  text. Messaging.SubscribeAsWrittenMisdelivers shows the coherence
  failing, and Messaging.SubscribeAsWrittenMisses shows a subscription
  missing from a cached answer.
- Messaging.UnsubscribeAsWritten and Messaging.QueueSubscribeAsWritten
  have no invariant lemma beyond QueueSubscribeAsWrittenCovers. They
  exist to exhibit the findings at the dispatcher.
- Messaging.Publish takes the evicted key as a parameter, because it
  calls the corrected Sublists.Match.
- The `Message` payload and the handler call are not modelled.
- `ServiceInfo` is reduced to its name. The rest of service.go (workers,
  `Auth`, the unimplemented methods) is not modelled.
- The other files of the repository are not modelled: WebSocket and HTTP
  plumbing, registries, peers and plain data declarations. They are I/O
  and channel plumbing around the core.

## Findings

| source | as written | input that shows it | evidently intended | confidence | as-written member | corrected member |
|---|---|---|---|---|---|---|
| internal/sublist.go:194-197 | On a miss with a full cache, the eviction branch is an empty TODO. The new subject is added anyway. | 1025 distinct misses on a new sublist whose cache bound is 1024, as in internal/sublist_test.go:213-228 | Evict one cached subject first, so the cache never holds more than `cmax` subjects | high, not executed | Sublists.MatchAsWritten, Sublists.MatchAsWrittenOverflows | Sublists.Match, Sublists.MatchValid |
| internal/sublist.go:348-376 | `matchLiteral` never checks that the whole literal was consumed. A pattern that is a proper prefix of a cached subject therefore "matches" it, and `addToCache` appends the inserted subscription to that subject's answer. | Match `foo.bar` on a new sublist, then Insert `foo` with subscription 7: the cached answer for `foo.bar` becomes `[7]`, although a fresh walk returns nothing. At the dispatcher: publish `foo.bar`, subscribe `foo`, publish `foo.bar` again, and the `foo` handler runs | Append only to cached subjects the pattern matches token-wise, i.e. also require the literal to be used up | high, not executed | Literals.MatchLiteral, Sublists.InsertAsWritten, Sublists.InsertAsWrittenPoisonsCache, Messaging.QueueSubscribeAsWritten, Messaging.SubscribeAsWrittenMisdelivers | Literals.MatchLiteralExact, Literals.MatchLiteralExactIff, Sublists.Insert, Sublists.InsertCoherent, Messaging.QueueSubscribeValid |
| internal/sublist.go:350-373 | `for i := range subject` visits the pattern one rune at a time and reads the first byte of each rune, but `li` moves through the literal one byte per step. On a multi-byte character the two fall out of step. `removeFromCache` then fails to select a cached subject the removed pattern matches, and keeps its stale answer. `addToCache` likewise fails to append a new subscription to the answer of a cached subject the pattern matches. | Insert `é.x` with subscription 7, Match `é.x`, Remove `é.x` 7: the cache still answers `é.x` with `[7]`, although a fresh walk returns nothing. Or Match `é.x` on a new sublist, then Insert `é.x` with 7: the cached answer stays `[]` while a fresh walk returns `[7]`. At the dispatcher, the unsubscribed handler keeps receiving `é.x`, and a handler subscribed after the first publish of `é.x` never receives it | Step through pattern and literal in the same unit; the corrected members step through both by characters | high, not executed | Literals.MatchLiteralRunes, Literals.MatchLiteralRunesMisses, Sublists.AddToCacheAsWritten, Sublists.InsertAsWrittenMissesWith, Sublists.RemoveAsWritten, Sublists.RemoveAsWrittenKeepsStale, Messaging.QueueSubscribeAsWritten, Messaging.SubscribeAsWrittenMisses, Messaging.UnsubscribeAsWritten, Messaging.UnsubscribeAsWrittenDelivers | Literals.MatchLiteral, Literals.MatchLiteralSound, Literals.MatchLiteralExact, Sublists.Insert, Sublists.InsertCoherent, Sublists.Remove, Sublists.RemoveCoherent, Messaging.QueueSubscribeValid, Messaging.UnsubscribeValid |

The second finding does not harm removal. `removeFromCache` only drops
entries, and dropping an entry that did not need dropping keeps the cache
coherent. So the corrected `Remove` keeps the prefix-accepting walk, read
one character at a time; Literals.MatchLiteralSound shows it drops every
entry it must. The third finding is what makes removal drop too little.
