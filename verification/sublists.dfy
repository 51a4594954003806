/** The subscription list: the trie of patterns together with the count of
    stored subscriptions, a cache from published topics to their match
    results, and usage counters. */
module Sublists {
  import opened Tokens
  import opened Trie
  import opened TrieShape
  import opened Literals

  /** Upper bound on the number of cached topics in a fresh sublist. */
  const DefaultCacheMax: nat := 1024

  /** The subscription count is an unsigned 32-bit word. */
  const Uint32Modulus: nat := 0x1_0000_0000

  datatype Counters = Counters(inserts: nat, removes: nat, matches: nat, cacheHits: nat)

  datatype Sublist<S> = Sublist(
    root: Level<S>,
    count: nat,
    cache: map<string, seq<S>>,
    cmax: nat,
    stats: Counters)

  /** A match answer together with the sublist whose cache and counters it updated. */
  datatype Matched<S> = Matched(sublist: Sublist<S>, results: seq<S>)

  /** Reduction to a 32-bit word, so that increments and decrements wrap around. */
  function Wrap32(n: int): (w: nat)
    ensures w < Uint32Modulus
    ensures 0 <= n < Uint32Modulus ==> w == n
    ensures n == -1 ==> w == Uint32Modulus - 1
  {
    n % Uint32Modulus
  }

  /** Wrapping the count after a step agrees with wrapping the true total. */
  lemma WrapStep(count: nat, total: int, d: int)
    requires count == total % Uint32Modulus
    ensures Wrap32(count + d) == (total + d) % Uint32Modulus
  {
  }

  // ---------------------------------------------------------------------
  // Invariants

  /** The count is the number of stored subscriptions modulo 2^32, no empty
      node hangs in the trie, and the cache respects its bound. */
  ghost predicate Valid<S>(sl: Sublist<S>)
  {
    && sl.count == LevelTotal(sl.root) % Uint32Modulus
    && Pruned(sl.root)
    && 1 <= sl.cmax
    && |sl.cache| <= sl.cmax
  }

  /** Every cached answer for a valid topic holds exactly the subscriptions a
      fresh descent of the trie would return, up to order. */
  ghost predicate CacheCoherent<S>(sl: Sublist<S>)
  {
    forall k | k in sl.cache && ValidTopic(k) ::
      multiset(sl.cache[k]) == multiset(MatchLevel(sl.root, Split(k)))
  }

  /** Weaker: every cached answer holds at least what a fresh descent returns. */
  ghost predicate CacheCovers<S>(sl: Sublist<S>)
  {
    forall k | k in sl.cache && ValidTopic(k) ::
      multiset(MatchLevel(sl.root, Split(k))) <= multiset(sl.cache[k])
  }

  lemma CoherentCovers<S>(sl: Sublist<S>)
    requires CacheCoherent(sl)
    ensures CacheCovers(sl)
  {
  }

  lemma MapCard<K, V>(a: map<K, V>, b: map<K, V>)
    requires a.Keys <= b.Keys
    ensures |a| <= |b|
  {
    SubsetCard(a.Keys, b.Keys);
    assert |a| == |a.Keys| && |b| == |b.Keys|;
  }

  lemma {:induction false} SubsetCard<T>(a: set<T>, b: set<T>)
    requires a <= b
    ensures |a| <= |b|
    decreases |a|
  {
    if a != {} {
      var x :| x in a;
      SubsetCard(a - {x}, b - {x});
    }
  }

  // ---------------------------------------------------------------------
  // Construction and the simple queries

  function NewSublist<S>(): (sl: Sublist<S>)
    ensures Valid(sl) && CacheCoherent(sl)
    ensures LevelTotal(sl.root) == 0 && sl.cache == map[]
    ensures sl.cmax == DefaultCacheMax && sl.stats == Counters(0, 0, 0, 0)
  {
    var sl := Sublist(EmptyLevel(), 0, map[], DefaultCacheMax, Counters(0, 0, 0, 0));
    EmptyLevelTotal(sl.root);
    sl
  }

  /** The number of stored subscriptions, as a 32-bit word. */
  function Count<S>(sl: Sublist<S>): (c: nat)
    ensures Valid(sl) ==> c == LevelTotal(sl.root) % Uint32Modulus
    ensures Valid(sl) && LevelTotal(sl.root) < Uint32Modulus ==> c == LevelTotal(sl.root)
  {
    sl.count
  }

  /** The number of levels of the trie: the length of the longest key path
      to a node. It is zero exactly when the root has no child, no stored
      pattern is longer, and without empty nodes some stored pattern is
      exactly that long. */
  function NumLevels<S>(sl: Sublist<S>): (n: nat)
    ensures n == 0 <==> NumNodes(sl.root) == 0
    ensures forall path | HasNode(sl.root, path) :: |path| <= n
    ensures forall path | SubsAt(sl.root, path) != [] :: |path| <= n
    ensures NumNodes(sl.root) > 0 ==> exists path :: HasNode(sl.root, path) && |path| == n
    ensures Pruned(sl.root) && NumNodes(sl.root) > 0 ==> exists path :: SubsAt(sl.root, path) != [] && |path| == n
  {
    VisitBelowNodes(sl.root, 0);
    VisitDeepest(sl.root, 0);
    VisitLevel(sl.root, 0)
  }

  // ---------------------------------------------------------------------
  // Cache maintenance

  /** Append `sub` to every cached answer whose topic the new pattern selects.
      The selection uses the exact literal matcher (see Findings). */
  function AddToCache<S>(cache: map<string, seq<S>>, pattern: string, sub: S): (c: map<string, seq<S>>)
    ensures c.Keys == cache.Keys
    ensures forall k | k in c :: c[k] == cache[k] + [sub] || c[k] == cache[k]
  {
    map k | k in cache :: if MatchLiteralExact(k, pattern) then cache[k] + [sub] else cache[k]
  }

  /** For a pattern as subscribers write it, exactly the cached answers of
      the valid topics it matches token by token gain the subscription. */
  lemma AddToCacheGains<S>(cache: map<string, seq<S>>, pattern: string, sub: S)
    requires Subscribable(pattern)
    ensures forall k | k in cache && ValidTopic(k) ::
              AddToCache(cache, pattern, sub)[k] ==
                if KeyMatch(PathOf(pattern), Split(k)) then cache[k] + [sub] else cache[k]
  {
    MatchLiteralExactAll(pattern);
  }

  /** The cache update as the source runs it on bytes, with the
      prefix-accepting, rune-stepped matcher. Each answer gains the
      subscription at the end or is left alone; on ASCII text the selection
      is the character walk. */
  function AddToCacheAsWritten<S>(cache: map<string, seq<S>>, pattern: string, sub: S): (c: map<string, seq<S>>)
    ensures c.Keys == cache.Keys
    ensures forall k | k in cache :: c[k] == cache[k] || c[k] == cache[k] + [sub]
    ensures Ascii(pattern) ==> forall k | k in cache && Ascii(k) ::
              c[k] == if MatchLiteral(k, pattern) then cache[k] + [sub] else cache[k]
  {
    map k | k in cache :: if MatchLiteralRunes(k, pattern) then cache[k] + [sub] else cache[k]
  }

  /** Drop every cached answer whose topic the removed pattern selects: at
      least every valid topic the pattern matches token by token. The
      selection reads characters (see Findings). */
  function RemoveFromCache<S>(cache: map<string, seq<S>>, pattern: string): (c: map<string, seq<S>>)
    ensures c.Keys <= cache.Keys
    ensures forall k | k in c :: c[k] == cache[k]
    ensures WellFormedPattern(pattern) ==>
              forall k | k in cache && ValidTopic(k) && KeyMatch(PathOf(pattern), Split(k)) :: k !in c
  {
    MatchLiteralSoundAll(pattern);
    map k | k in cache && !MatchLiteral(k, pattern) :: cache[k]
  }

  /** The cache update of a removal as the source runs it on bytes, with
      the rune-stepped matcher. */
  function RemoveFromCacheAsWritten<S>(cache: map<string, seq<S>>, pattern: string): (c: map<string, seq<S>>)
    ensures c.Keys <= cache.Keys
    ensures forall k | k in c :: c[k] == cache[k]
    ensures Ascii(pattern) ==> forall k | Ascii(k) :: (k in c <==> k in RemoveFromCache(cache, pattern))
  {
    map k | k in cache && !MatchLiteralRunes(k, pattern) :: cache[k]
  }

  // ---------------------------------------------------------------------
  // Operations

  function Insert<S>(sl: Sublist<S>, pattern: string, sub: S): (r: Sublist<S>)
    requires TokensNonEmpty(pattern)
    ensures r.cache.Keys == sl.cache.Keys && r.cmax == sl.cmax
    ensures r.stats == sl.stats.(inserts := sl.stats.inserts + 1)
  {
    Sublist(InsertLevel(sl.root, PathOf(pattern), sub), Wrap32(sl.count + 1),
            AddToCache(sl.cache, pattern, sub), sl.cmax,
            sl.stats.(inserts := sl.stats.inserts + 1))
  }

  /** Insert as the source writes it: the cache update may append to the
      answer of a topic the pattern does not match, and on non-ASCII text
      skip the answer of one it does. */
  function InsertAsWritten<S>(sl: Sublist<S>, pattern: string, sub: S): (r: Sublist<S>)
    requires TokensNonEmpty(pattern)
    ensures r.root == Insert(sl, pattern, sub).root && r.cache.Keys == sl.cache.Keys
  {
    Sublist(InsertLevel(sl.root, PathOf(pattern), sub), Wrap32(sl.count + 1),
            AddToCacheAsWritten(sl.cache, pattern, sub), sl.cmax,
            sl.stats.(inserts := sl.stats.inserts + 1))
  }

  /** Remove one occurrence of `sub` filed under `pattern`; when there is
      none the sublist is left exactly as it was. */
  function Remove<S(==)>(sl: Sublist<S>, pattern: string, sub: S): (r: Sublist<S>)
    ensures sub !in SubsAt(sl.root, PathOf(pattern)) ==> r == sl
    ensures sub in SubsAt(sl.root, PathOf(pattern)) ==>
              r.stats == sl.stats.(removes := sl.stats.removes + 1)
    ensures r.cache.Keys <= sl.cache.Keys && r.cmax == sl.cmax
  {
    var rm := RemoveLevel(sl.root, PathOf(pattern), sub);
    if !rm.found then sl
    else
      Sublist(rm.level, Wrap32(sl.count - 1), RemoveFromCache(sl.cache, pattern), sl.cmax,
              sl.stats.(removes := sl.stats.removes + 1))
  }

  /** Remove as the source runs it on bytes: the cache update uses the
      rune-stepped matcher, which can keep the answer of a topic the pattern
      matches. The trie changes as in Remove. */
  function RemoveAsWritten<S(==)>(sl: Sublist<S>, pattern: string, sub: S): (r: Sublist<S>)
    ensures r.root == Remove(sl, pattern, sub).root && r.count == Remove(sl, pattern, sub).count
    ensures r.cache.Keys <= sl.cache.Keys
  {
    var rm := RemoveLevel(sl.root, PathOf(pattern), sub);
    if !rm.found then sl
    else
      var stats := sl.stats.(removes := sl.stats.removes + 1);
      assert Remove(sl, pattern, sub) ==
             Sublist(rm.level, Wrap32(sl.count - 1), RemoveFromCache(sl.cache, pattern), sl.cmax, stats);
      Sublist(rm.level, Wrap32(sl.count - 1), RemoveFromCacheAsWritten(sl.cache, pattern), sl.cmax, stats)
  }

  /** Answer a published topic from the cache, or by descending the trie and
      caching the answer. When the cache is full, `victim` names the cached
      topic that makes room (the source leaves the choice to chance). */
  function Match<S>(sl: Sublist<S>, topic: string, victim: string): (m: Matched<S>)
    requires topic !in sl.cache && |sl.cache| >= sl.cmax ==> victim in sl.cache
    ensures m.sublist.root == sl.root && m.sublist.count == sl.count && m.sublist.cmax == sl.cmax
    ensures topic in m.sublist.cache && m.sublist.cache[topic] == m.results
    ensures topic in sl.cache ==> m.sublist.cache == sl.cache
    ensures forall k | k in m.sublist.cache && k != topic :: k in sl.cache && m.sublist.cache[k] == sl.cache[k]
    ensures |sl.cache| <= sl.cmax ==> |m.sublist.cache| <= sl.cmax
    ensures m.sublist.stats.matches == sl.stats.matches + 1
    ensures m.sublist.stats.cacheHits == sl.stats.cacheHits + (if topic in sl.cache then 1 else 0)
  {
    var stats := sl.stats.(matches := sl.stats.matches + 1);
    if topic in sl.cache then
      Matched(sl.(stats := stats.(cacheHits := stats.cacheHits + 1)), sl.cache[topic])
    else
      var results := MatchLevel(sl.root, Split(topic));
      var kept := if |sl.cache| >= sl.cmax then sl.cache - {victim} else sl.cache;
      assert |sl.cache| >= sl.cmax ==> |kept| == |sl.cache| - 1 by {
        if |sl.cache| >= sl.cmax {
          assert kept.Keys == sl.cache.Keys - {victim};
        }
      }
      Matched(sl.(cache := kept[topic := results], stats := stats), results)
  }

  /** Match as the source writes it: the eviction step is empty. */
  function MatchAsWritten<S>(sl: Sublist<S>, topic: string): (m: Matched<S>)
    ensures topic in m.sublist.cache && m.sublist.cache[topic] == m.results
    ensures m.sublist.cache.Keys == sl.cache.Keys + {topic}
  {
    var stats := sl.stats.(matches := sl.stats.matches + 1);
    if topic in sl.cache then
      Matched(sl.(stats := stats.(cacheHits := stats.cacheHits + 1)), sl.cache[topic])
    else
      var results := MatchLevel(sl.root, Split(topic));
      Matched(sl.(cache := sl.cache[topic := results], stats := stats), results)
  }

  /** The integer part of the statistics report; the hit rate and average
      fanout are the ratios cacheHits/numMatches and the fanout total over numCache. */
  datatype Stats = Stats(
    numSubs: nat,
    numCache: nat,
    numInserts: nat,
    numRemoves: nat,
    numMatches: nat,
    cacheHits: nat,
    maxFanout: nat)

  function StatsOf<S>(sl: Sublist<S>): (st: Stats)
    ensures st.numCache == |sl.cache|
    ensures forall k | k in sl.cache :: |sl.cache[k]| <= st.maxFanout
    ensures sl.cache != map[] ==> exists k | k in sl.cache :: |sl.cache[k]| == st.maxFanout
    ensures sl.cache == map[] ==> st.maxFanout == 0
    ensures Valid(sl) ==> st.numSubs == LevelTotal(sl.root) % Uint32Modulus
  {
    var fanouts := set k | k in sl.cache :: |sl.cache[k]|;
    assert forall k | k in sl.cache :: |sl.cache[k]| in fanouts;
    assert sl.cache != map[] ==> fanouts != {} by {
      if sl.cache != map[] {
        var k :| k in sl.cache;
        assert |sl.cache[k]| in fanouts;
      }
    }
    Stats(sl.count, |sl.cache|, sl.stats.inserts, sl.stats.removes, sl.stats.matches,
          sl.stats.cacheHits, MaxOf(fanouts))
  }

  /** Clear the counters; the stored subscriptions and the cache stay. */
  function ResetStats<S>(sl: Sublist<S>): (r: Sublist<S>)
    ensures StatsOf(r).numInserts == 0 && StatsOf(r).numRemoves == 0
    ensures StatsOf(r).numMatches == 0 && StatsOf(r).cacheHits == 0
    ensures StatsOf(r).numSubs == StatsOf(sl).numSubs && StatsOf(r).numCache == StatsOf(sl).numCache
    ensures Valid(sl) ==> Valid(r)
    ensures CacheCoherent(sl) ==> CacheCoherent(r)
    ensures NumLevels(r) == NumLevels(sl)
  {
    sl.(stats := Counters(0, 0, 0, 0))
  }

  // ---------------------------------------------------------------------
  // The invariants are preserved

  /** A step that changes the stored total by `d`, moves the count with it,
      keeps the trie pruned and does not add cache entries keeps the invariant. */
  lemma ValidStep<S>(sl: Sublist<S>, r: Sublist<S>, d: int)
    requires Valid(sl)
    requires r.count == Wrap32(sl.count + d) && LevelTotal(r.root) == LevelTotal(sl.root) + d
    requires Pruned(r.root) && r.cmax == sl.cmax && r.cache.Keys <= sl.cache.Keys
    ensures Valid(r)
  {
    WrapStep(sl.count, LevelTotal(sl.root), d);
    MapCard(r.cache, sl.cache);
  }

  /** An insert keeps the trie pruned and stores one more entry. */
  lemma InsertShape<S>(l: Level<S>, path: seq<Key>, sub: S)
    requires |path| >= 1 && Pruned(l)
    ensures Pruned(InsertLevel(l, path, sub))
    ensures LevelTotal(InsertLevel(l, path, sub)) == LevelTotal(l) + 1
  {
    InsertPruned(l, path, sub);
    TotalInsert(l, path, sub);
  }

  lemma InsertValid<S>(sl: Sublist<S>, pattern: string, sub: S)
    requires TokensNonEmpty(pattern) && Valid(sl)
    ensures Valid(Insert(sl, pattern, sub))
    ensures LevelTotal(Insert(sl, pattern, sub).root) == LevelTotal(sl.root) + 1
  {
    var path := PathOf(pattern);
    var r := Insert(sl, pattern, sub);
    assert r.root == InsertLevel(sl.root, path, sub);
    assert r.count == Wrap32(sl.count + 1);
    assert r.cache.Keys <= sl.cache.Keys && r.cmax == sl.cmax;
    InsertShape(sl.root, path, sub);
    ValidStep(sl, r, 1);
  }

  lemma RemoveValid<S>(sl: Sublist<S>, pattern: string, sub: S)
    requires Valid(sl)
    ensures Valid(Remove(sl, pattern, sub))
    ensures LevelTotal(Remove(sl, pattern, sub).root) + (if sub in SubsAt(sl.root, PathOf(pattern)) then 1 else 0)
            == LevelTotal(sl.root)
  {
    var path := PathOf(pattern);
    var r := Remove(sl, pattern, sub);
    TotalRemove(sl.root, path, sub);
    if RemoveLevel(sl.root, path, sub).found {
      RemovePruned(sl.root, path, sub);
      ValidStep(sl, r, -1);
    }
  }

  lemma MatchValid<S>(sl: Sublist<S>, topic: string, victim: string)
    requires topic !in sl.cache && |sl.cache| >= sl.cmax ==> victim in sl.cache
    requires Valid(sl)
    ensures Valid(Match(sl, topic, victim).sublist)
  {
  }

  /** The corrected insert keeps every cached answer exact. */
  lemma InsertCoherent<S>(sl: Sublist<S>, pattern: string, sub: S)
    requires Subscribable(pattern) && CacheCoherent(sl)
    ensures CacheCoherent(Insert(sl, pattern, sub))
  {
    var r := Insert(sl, pattern, sub);
    forall k | k in r.cache && ValidTopic(k)
      ensures multiset(r.cache[k]) == multiset(MatchLevel(r.root, Split(k)))
    {
      MatchAfterInsert(sl.root, PathOf(pattern), sub, Split(k));
      MatchLiteralExactIff(k, pattern);
    }
  }

  /** On ASCII text the insert as written never loses a subscription from
      a cached answer (InsertAsWrittenMissesWith shows it can on other text). */
  lemma InsertAsWrittenCovers<S>(sl: Sublist<S>, pattern: string, sub: S)
    requires WellFormedPattern(pattern) && CacheCovers(sl)
    requires Ascii(pattern) && forall k | k in sl.cache :: Ascii(k)
    ensures CacheCovers(InsertAsWritten(sl, pattern, sub))
  {
    var r := InsertAsWritten(sl, pattern, sub);
    forall k | k in r.cache && ValidTopic(k)
      ensures multiset(MatchLevel(r.root, Split(k))) <= multiset(r.cache[k])
    {
      MatchAfterInsert(sl.root, PathOf(pattern), sub, Split(k));
      MatchLiteralSound(k, pattern);
    }
  }

  lemma RemoveCoherent<S>(sl: Sublist<S>, pattern: string, sub: S)
    requires WellFormedPattern(pattern) && CacheCoherent(sl)
    ensures CacheCoherent(Remove(sl, pattern, sub))
  {
    var rm := RemoveLevel(sl.root, PathOf(pattern), sub);
    if rm.found {
      var r := Remove(sl, pattern, sub);
      forall k | k in r.cache && ValidTopic(k)
        ensures multiset(r.cache[k]) == multiset(MatchLevel(r.root, Split(k)))
      {
        MatchAfterRemove(sl.root, PathOf(pattern), sub, Split(k));
        MatchLiteralSound(k, pattern);
      }
    }
  }

  lemma MatchCoherent<S>(sl: Sublist<S>, topic: string, victim: string)
    requires topic !in sl.cache && |sl.cache| >= sl.cmax ==> victim in sl.cache
    requires CacheCoherent(sl)
    ensures CacheCoherent(Match(sl, topic, victim).sublist)
  {
  }

  // ---------------------------------------------------------------------
  // What Match returns

  /** On a coherent sublist, Match returns, for a valid topic, exactly the
      subscriptions stored along the key paths that match the topic. */
  lemma MatchGathersCandidates<S>(sl: Sublist<S>, topic: string, victim: string)
    requires topic !in sl.cache && |sl.cache| >= sl.cmax ==> victim in sl.cache
    requires CacheCoherent(sl) && ValidTopic(topic)
    ensures multiset(Match(sl, topic, victim).results) == Gather(sl.root, Candidates(Split(topic)))
  {
    MatchGathers(sl.root, Split(topic));
  }

  /** A subscription is returned exactly when it is filed under a path that
      matches the topic token by token. */
  lemma MatchMembers<S>(sl: Sublist<S>, topic: string, victim: string, s: S)
    requires topic !in sl.cache && |sl.cache| >= sl.cmax ==> victim in sl.cache
    requires CacheCoherent(sl) && ValidTopic(topic)
    ensures s in Match(sl, topic, victim).results <==>
            exists path | KeyMatch(path, Split(topic)) :: s in SubsAt(sl.root, path)
  {
    var tokens := Split(topic);
    var cs := Candidates(tokens);
    MatchGathersCandidates(sl, topic, victim);
    GatherHas(sl.root, cs, s);
    assert s in Match(sl, topic, victim).results <==> s in multiset(Match(sl, topic, victim).results);
    if exists path | KeyMatch(path, tokens) :: s in SubsAt(sl.root, path) {
      var path :| KeyMatch(path, tokens) && s in SubsAt(sl.root, path);
      CandidatesMatch(tokens, path);
      var i :| 0 <= i < |cs| && cs[i] == path;
    }
    if exists i | 0 <= i < |cs| :: s in SubsAt(sl.root, cs[i]) {
      var i :| 0 <= i < |cs| && s in SubsAt(sl.root, cs[i]);
      CandidatesMatch(tokens, cs[i]);
    }
  }

  /** After an insert, a valid topic the pattern matches sees the new
      subscription once more than before, and any other topic sees no change. */
  lemma InsertThenMatch<S>(sl: Sublist<S>, pattern: string, sub: S, topic: string, victim: string)
    requires Subscribable(pattern) && ValidTopic(topic) && CacheCoherent(sl)
    requires var r := Insert(sl, pattern, sub); topic !in r.cache && |r.cache| >= r.cmax ==> victim in r.cache
    ensures multiset(Match(Insert(sl, pattern, sub), topic, victim).results) ==
            multiset(MatchLevel(sl.root, Split(topic)))
            + (if KeyMatch(PathOf(pattern), Split(topic)) then multiset{sub} else multiset{})
  {
    InsertCoherent(sl, pattern, sub);
    MatchAfterInsert(sl.root, PathOf(pattern), sub, Split(topic));
  }

  /** After a removal that found the subscription, a valid topic the pattern
      matches sees one copy fewer; nothing else changes. */
  lemma RemoveThenMatch<S>(sl: Sublist<S>, pattern: string, sub: S, topic: string, victim: string)
    requires WellFormedPattern(pattern) && ValidTopic(topic) && CacheCoherent(sl)
    requires var r := Remove(sl, pattern, sub); topic !in r.cache && |r.cache| >= r.cmax ==> victim in r.cache
    ensures multiset(Match(Remove(sl, pattern, sub), topic, victim).results) ==
            multiset(MatchLevel(sl.root, Split(topic)))
            - (if sub in SubsAt(sl.root, PathOf(pattern)) && KeyMatch(PathOf(pattern), Split(topic))
               then multiset{sub} else multiset{})
  {
    RemoveCoherent(sl, pattern, sub);
    MatchAfterRemove(sl.root, PathOf(pattern), sub, Split(topic));
  }

  // ---------------------------------------------------------------------
  // Depth

  /** On a pruned trie the depth is zero exactly when nothing is stored. */
  lemma NumLevelsZero<S>(sl: Sublist<S>)
    requires Pruned(sl.root)
    ensures NumLevels(sl) == 0 <==> LevelTotal(sl.root) == 0
  {
    if NumNodes(sl.root) == 0 {
      EmptyLevelTotal(sl.root);
      VisitEmpty(sl.root, 0);
    } else {
      LevelTotalPositive(sl.root);
      assert 1 in {1} + ChildDepths(sl.root, 1);
    }
  }

  /** One pattern in a fresh sublist makes the trie as deep as the pattern is long. */
  lemma InsertDepth<S>(pattern: string, sub: S)
    requires TokensNonEmpty(pattern)
    ensures NumLevels(Insert(NewSublist(), pattern, sub)) == |Split(pattern)|
  {
    VisitChain(PathOf(pattern), sub, 0);
  }

  /** Removing the only subscription prunes the trie back to no levels at all. */
  lemma InsertRemoveCleanup<S>(pattern: string, sub: S)
    requires TokensNonEmpty(pattern)
    ensures NumLevels(Remove(Insert(NewSublist(), pattern, sub), pattern, sub)) == 0
  {
    var path := PathOf(pattern);
    var sl0 := NewSublist<S>();
    var sl1 := Insert(sl0, pattern, sub);
    InsertValid(sl0, pattern, sub);
    SubsAtInsert(sl0.root, path, sub, path);
    RemoveValid(sl1, pattern, sub);
    NumLevelsZero(Remove(sl1, pattern, sub));
  }

  // ---------------------------------------------------------------------
  // The two discrepancies of the source, exhibited

  /** Without eviction, a miss on a full cache grows it past its bound. */
  lemma MatchAsWrittenOverflows<S>(sl: Sublist<S>, topic: string)
    requires |sl.cache| >= sl.cmax && topic !in sl.cache
    ensures |MatchAsWritten(sl, topic).sublist.cache| == |sl.cache| + 1 > sl.cmax
  {
  }

  /** Topic `foo.bar` is cached with no subscribers; inserting pattern `foo`
      then appends to that answer as written, although `foo` does not match
      `foo.bar`; the corrected insert leaves the answer empty. */
  lemma InsertAsWrittenPoisonsCache<S>(sub: S)
    ensures TokensNonEmpty("foo")
    ensures var sl := Match(NewSublist<S>(), "foo.bar", "").sublist;
            && sl.cache["foo.bar"] == []
            && InsertAsWritten(sl, "foo", sub).cache["foo.bar"] == [sub]
            && Insert(sl, "foo", sub).cache["foo.bar"] == []
            && MatchLevel(Insert(sl, "foo", sub).root, Split("foo.bar")) == []
  {
    SplitSingle("foo");
    assert TokensNonEmpty("foo");
    FirstMatchCaches<S>("foo.bar");
    var sl := Match(NewSublist<S>(), "foo.bar", "").sublist;
    PrefixAppended(sl, sub);
    PrefixNotMatched(sl, sub);
  }

  lemma PrefixAppended<S>(sl: Sublist<S>, sub: S)
    requires sl.cache == map["foo.bar" := []] && TokensNonEmpty("foo")
    ensures InsertAsWritten(sl, "foo", sub).cache["foo.bar"] == [sub]
  {
    assert Ascii("foo") && Ascii("foo.bar");
    MatchLiteralAcceptsPrefix();
    assert AddToCacheAsWritten(sl.cache, "foo", sub)["foo.bar"] == [] + [sub];
  }

  lemma PrefixNotMatched<S>(sl: Sublist<S>, sub: S)
    requires sl.root == EmptyLevel() && sl.cache == map["foo.bar" := []] && TokensNonEmpty("foo")
    ensures Insert(sl, "foo", sub).cache["foo.bar"] == []
    ensures MatchLevel(Insert(sl, "foo", sub).root, Split("foo.bar")) == []
  {
    MatchLiteralAcceptsPrefix();
    assert MatchLevel(EmptyLevel<S>(), Split("foo.bar")) == [];
    MatchAfterInsert(sl.root, PathOf("foo"), sub, Split("foo.bar"));
  }

  /** A sequence with the contents of a single element is that element. */
  lemma SingletonSeq<S>(xs: seq<S>, x: S)
    requires multiset(xs) == multiset{x}
    ensures xs == [x]
  {
    assert |xs| == 1;
    assert xs[0] in multiset(xs);
  }

  /** One subscription filed under a wildcard-free topic in a fresh
      sublist, and that topic matched once: the answer is cached. */
  lemma CachedAfterInsert<S>(t: string, sub: S)
    requires TokensNonEmpty(t) && KeyMatch(PathOf(t), Split(t))
    ensures var sl := Match(Insert(NewSublist<S>(), t, sub), t, "").sublist;
            && sl.cache == map[t := [sub]]
            && SubsAt(sl.root, PathOf(t)) == [sub]
            && multiset(MatchLevel(sl.root, Split(t))) == multiset{sub}
  {
    InsertedAlone(t, sub);
    var sl0 := Insert(NewSublist<S>(), t, sub);
    var m := Match(sl0, t, "");
    assert m.results == MatchLevel(sl0.root, Split(t));
    assert m.sublist.cache == map[][t := [sub]];
  }

  /** A topic cached with no subscribers, whose own pattern the rune-stepped
      matcher does not select: subscribing that pattern as written leaves
      the cached answer empty although a fresh walk finds the subscription,
      so cached answers no longer cover the trie; the corrected insert
      appends it. */
  lemma InsertAsWrittenMissesWith<S>(t: string, sub: S)
    requires TokensNonEmpty(t) && KeyMatch(PathOf(t), Split(t))
    requires MatchLiteralExact(t, t) && !MatchLiteralRunes(t, t)
    ensures var sl := Match(NewSublist<S>(), t, "").sublist;
            var w := InsertAsWritten(sl, t, sub);
            && sl.cache == map[t := []]
            && w.cache == map[t := []]
            && MatchLevel(w.root, Split(t)) == [sub]
            && !CacheCovers(w)
            && Insert(sl, t, sub).cache == map[t := [sub]]
  {
    FirstMatchCaches<S>(t);
    var sl := Match(NewSublist<S>(), t, "").sublist;
    InsertAsWrittenMissesFrom(sl, t, sub);
    InsertCachesFrom(sl, t, sub);
  }

  /** A first match in a fresh sublist caches an empty answer and nothing else. */
  lemma FirstMatchCaches<S>(t: string)
    ensures var sl := Match(NewSublist<S>(), t, "").sublist;
            sl.root == EmptyLevel() && sl.cache == map[t := []]
  {
    assert MatchLevel(EmptyLevel<S>(), Split(t)) == [];
    assert Match(NewSublist<S>(), t, "").sublist.cache == map[][t := []];
  }

  lemma InsertAsWrittenMissesFrom<S>(sl: Sublist<S>, t: string, sub: S)
    requires sl.root == EmptyLevel() && sl.cache == map[t := []]
    requires TokensNonEmpty(t) && KeyMatch(PathOf(t), Split(t))
    requires !MatchLiteralRunes(t, t)
    ensures var w := InsertAsWritten(sl, t, sub);
            && w.cache == map[t := []]
            && MatchLevel(w.root, Split(t)) == [sub]
            && !CacheCovers(w)
  {
    InsertedAlone(t, sub);
    CacheAsWrittenSkips(t, sub);
    var w := InsertAsWritten(sl, t, sub);
    assert w.root == Insert(NewSublist<S>(), t, sub).root;
    UncoveredAt(w, t, sub);
  }

  lemma CacheAsWrittenSkips<S>(t: string, sub: S)
    requires !MatchLiteralRunes(t, t)
    ensures AddToCacheAsWritten(map[t := []], t, sub) == map[t := []]
  {
  }

  lemma UncoveredAt<S>(w: Sublist<S>, t: string, sub: S)
    requires TokensNonEmpty(t)
    requires w.cache == map[t := []] && MatchLevel(w.root, Split(t)) == [sub]
    ensures !CacheCovers(w)
  {
    assert ValidTopic(t);
    assert !(multiset(MatchLevel(w.root, Split(t))) <= multiset(w.cache[t]));
  }

  lemma InsertCachesFrom<S>(sl: Sublist<S>, t: string, sub: S)
    requires sl.cache == map[t := []]
    requires TokensNonEmpty(t) && MatchLiteralExact(t, t)
    ensures Insert(sl, t, sub).cache == map[t := [sub]]
  {
    var c := AddToCache(sl.cache, t, sub);
    assert [] + [sub] == [sub];
    assert c.Keys == {t} && c[t] == [sub];
    assert c == map[t := [sub]];
  }

  /** One subscription filed in a fresh sublist is all a walk of its own
      wildcard-free topic finds. */
  lemma InsertedAlone<S>(t: string, sub: S)
    requires TokensNonEmpty(t) && KeyMatch(PathOf(t), Split(t))
    ensures var sl := Insert(NewSublist<S>(), t, sub);
            && sl.cache == map[] && sl.cmax == DefaultCacheMax
            && SubsAt(sl.root, PathOf(t)) == [sub]
            && MatchLevel(sl.root, Split(t)) == [sub]
  {
    var toks := Split(t);
    var path := PathOf(t);
    var sl0 := Insert(NewSublist<S>(), t, sub);
    assert sl0.root == InsertLevel(EmptyLevel<S>(), path, sub);
    assert sl0.cache == map[];
    MatchAfterInsert(EmptyLevel<S>(), path, sub, toks);
    SingletonSeq(MatchLevel(sl0.root, toks), sub);
    assert SubsAt(EmptyLevel<S>(), path) == [];
  }

  /** A topic whose own pattern the rune-stepped matcher does not select,
      cached with the one subscription filed under it: removing that
      subscription as written keeps the answer although the trie no longer
      holds it; the corrected removal drops it. */
  lemma RemoveAsWrittenKeepsUnselected<S>(sl: Sublist<S>, t: string, sub: S)
    requires TokensNonEmpty(t) && KeyMatch(PathOf(t), Split(t))
    requires MatchLiteral(t, t) && !MatchLiteralRunes(t, t)
    requires sl.cache == map[t := [sub]] && SubsAt(sl.root, PathOf(t)) == [sub]
    requires multiset(MatchLevel(sl.root, Split(t))) == multiset{sub}
    ensures t in RemoveAsWritten(sl, t, sub).cache && RemoveAsWritten(sl, t, sub).cache[t] == [sub]
    ensures MatchLevel(RemoveAsWritten(sl, t, sub).root, Split(t)) == []
    ensures t !in Remove(sl, t, sub).cache
  {
    RemoveEmptiesAnswer(sl, t, sub);
    RemoveAsWrittenKeepsCache(sl, t, sub);
    RemoveDropsCache(sl, t, sub);
  }

  lemma RemoveEmptiesAnswer<S>(sl: Sublist<S>, t: string, sub: S)
    requires KeyMatch(PathOf(t), Split(t)) && SubsAt(sl.root, PathOf(t)) == [sub]
    requires multiset(MatchLevel(sl.root, Split(t))) == multiset{sub}
    ensures MatchLevel(RemoveAsWritten(sl, t, sub).root, Split(t)) == []
  {
    MatchAfterRemove(sl.root, PathOf(t), sub, Split(t));
    assert multiset(MatchLevel(RemoveAsWritten(sl, t, sub).root, Split(t))) == multiset{};
  }

  lemma RemoveAsWrittenKeepsCache<S>(sl: Sublist<S>, t: string, sub: S)
    requires !MatchLiteralRunes(t, t) && sl.cache == map[t := [sub]]
    ensures RemoveAsWritten(sl, t, sub).cache == sl.cache
  {
    assert RemoveFromCacheAsWritten(sl.cache, t) == sl.cache;
  }

  lemma RemoveDropsCache<S>(sl: Sublist<S>, t: string, sub: S)
    requires MatchLiteral(t, t) && sl.cache == map[t := [sub]] && SubsAt(sl.root, PathOf(t)) == [sub]
    ensures t !in Remove(sl, t, sub).cache
  {
    assert Remove(sl, t, sub).cache == RemoveFromCache(sl.cache, t);
  }
  /** Such a topic, subscribed under its own name in a fresh sublist and
      matched once: removing the subscription as written keeps the cached
      answer; the corrected removal leaves the cache empty. */
  lemma RemoveAsWrittenKeepsStaleWith<S>(t: string, sub: S)
    requires TokensNonEmpty(t) && KeyMatch(PathOf(t), Split(t))
    requires MatchLiteral(t, t) && !MatchLiteralRunes(t, t)
    ensures var sl := Match(Insert(NewSublist<S>(), t, sub), t, "").sublist;
            && sl.cache.Keys == {t} && sl.cmax == DefaultCacheMax
            && t in RemoveAsWritten(sl, t, sub).cache && RemoveAsWritten(sl, t, sub).cache[t] == [sub]
            && MatchLevel(RemoveAsWritten(sl, t, sub).root, Split(t)) == []
            && t !in Remove(sl, t, sub).cache
  {
    CachedAfterInsert(t, sub);
    RemoveAsWrittenKeepsUnselected(Match(Insert(NewSublist<S>(), t, sub), t, "").sublist, t, sub);
  }

  /** Topic `é.x` is such a topic. */
  lemma RemoveAsWrittenKeepsStale<S>(sub: S)
    ensures var t := "\U{E9}.x";
            var sl := Match(Insert(NewSublist<S>(), t, sub), t, "").sublist;
            && t in sl.cache && sl.cache[t] == [sub]
            && t in RemoveAsWritten(sl, t, sub).cache && RemoveAsWritten(sl, t, sub).cache[t] == [sub]
            && MatchLevel(RemoveAsWritten(sl, t, sub).root, Split(t)) == []
            && t !in Remove(sl, t, sub).cache
  {
    var t := "\U{E9}.x";
    MatchLiteralRunesMisses();
    AccentTopic();
    CachedAfterInsert(t, sub);
    RemoveAsWrittenKeepsUnselected(Match(Insert(NewSublist<S>(), t, sub), t, "").sublist, t, sub);
  }
}
