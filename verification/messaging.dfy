/** The stand-alone dispatcher: subscriptions filed in a sublist, and the
    selection a publish makes among the matching subscriptions. */
module Messaging {
  import opened Tokens
  import opened Trie
  import opened Literals
  import opened Sublists

  /** A subscription: the pattern it was filed under, its queue name (empty
      for plain fan-out), its identity and the identity of its handler. */
  datatype Subscription = Subscription(topicPattern: string, queue: string, sid: nat, handler: nat)

  /** The dispatcher state. Identities are drawn from a counter, so every
      subscription ever issued is distinct. */
  datatype Dispatcher = Dispatcher(sublist: Sublist<Subscription>, nextSid: nat)

  /** The dispatcher after a subscribe, and the handle the caller keeps. */
  datatype Subscribed = Subscribed(dispatcher: Dispatcher, subscriber: Subscription)

  /** The dispatcher after a publish, the subscriptions whose handlers run,
      and the error returned. */
  datatype Published = Published(dispatcher: Dispatcher, delivered: multiset<Subscription>, err: Option<string>)

  /** A publish result split by queue name, in result order. */
  datatype Partitioned = Partitioned(fanOut: seq<Subscription>, groups: map<string, seq<Subscription>>)

  // ---------------------------------------------------------------------
  // Invariant

  /** Subscription `s`, found at `path`, is filed there exactly once, under
      the path of its own pattern, with an identity already issued. */
  ghost predicate FiledOnce(root: Level<Subscription>, nextSid: nat, path: seq<Key>, s: Subscription)
  {
    && s.sid < nextSid
    && TokensNonEmpty(s.topicPattern)
    && path == PathOf(s.topicPattern)
    && multiset(SubsAt(root, path))[s] == 1
  }

  /** Every stored subscription is filed once, under its own pattern. */
  ghost predicate Registered(root: Level<Subscription>, nextSid: nat)
  {
    forall path: seq<Key>, s: Subscription | s in SubsAt(root, path) :: FiledOnce(root, nextSid, path, s)
  }

  /** Every stored pattern uses whole-token wildcards with `>` last; exact
      cache coherence needs this, registration does not. */
  ghost predicate StoredSubscribable(root: Level<Subscription>)
  {
    forall path: seq<Key>, s: Subscription | s in SubsAt(root, path) :: Subscribable(s.topicPattern)
  }

  ghost predicate DispatcherValid(d: Dispatcher)
  {
    && Valid(d.sublist) && CacheCoherent(d.sublist)
    && Registered(d.sublist.root, d.nextSid) && StoredSubscribable(d.sublist.root)
  }

  function NewDispatcher(): (d: Dispatcher)
    ensures DispatcherValid(d)
    ensures forall path :: SubsAt(d.sublist.root, path) == []
  {
    var d := Dispatcher(NewSublist(), 0);
    NothingStored(d.sublist.root);
    d
  }

  lemma NothingStored(l: Level<Subscription>)
    requires NumNodes(l) == 0
    ensures forall path :: SubsAt(l, path) == []
  {
    forall path ensures SubsAt(l, path) == [] {
      SubsAtEmptyLevel(l, path);
    }
  }

  // ---------------------------------------------------------------------
  // Subscribe and unsubscribe

  function QueueSubscribe(d: Dispatcher, topicPattern: string, queue: string, handler: nat): (r: Subscribed)
    requires TokensNonEmpty(topicPattern)
    ensures r.subscriber.topicPattern == topicPattern && r.subscriber.queue == queue
    ensures r.subscriber.handler == handler
    ensures forall path :: SubsAt(r.dispatcher.sublist.root, path) ==
              SubsAt(d.sublist.root, path) + (if path == PathOf(topicPattern) then [r.subscriber] else [])
  {
    var s := Subscription(topicPattern, queue, d.nextSid, handler);
    InsertOnlyAt(d.sublist.root, PathOf(topicPattern), s);
    Subscribed(Dispatcher(Insert(d.sublist, topicPattern, s), d.nextSid + 1), s)
  }

  /** A plain subscription is a queue subscription with the empty queue name. */
  function Subscribe(d: Dispatcher, topicPattern: string, handler: nat): (r: Subscribed)
    requires TokensNonEmpty(topicPattern)
    ensures r == QueueSubscribe(d, topicPattern, "", handler)
    ensures r.subscriber.queue == ""
  {
    QueueSubscribe(d, topicPattern, "", handler)
  }

  /** Remove the subscription's own entry from the sublist. */
  function Unsubscribe(d: Dispatcher, s: Subscription): (r: Dispatcher)
    ensures r.nextSid == d.nextSid
    ensures forall path | path != PathOf(s.topicPattern) ::
              SubsAt(r.sublist.root, path) == SubsAt(d.sublist.root, path)
    ensures multiset(SubsAt(r.sublist.root, PathOf(s.topicPattern))) ==
            multiset(SubsAt(d.sublist.root, PathOf(s.topicPattern))) - multiset{s}
    ensures s !in SubsAt(d.sublist.root, PathOf(s.topicPattern)) ==> r == d
  {
    var path := PathOf(s.topicPattern);
    RemoveOnlyAt(d.sublist.root, path, s);
    Dispatcher(Remove(d.sublist, s.topicPattern, s), d.nextSid)
  }

  /** Subscribe as the source runs it: the sublist insert appends to the
      cached answers the rune-stepped matcher selects, which may be more or
      fewer than the pattern matches (see Findings). */
  function QueueSubscribeAsWritten(d: Dispatcher, topicPattern: string, queue: string, handler: nat): (r: Subscribed)
    requires TokensNonEmpty(topicPattern)
    ensures r.subscriber == QueueSubscribe(d, topicPattern, queue, handler).subscriber
    ensures r.dispatcher.nextSid == d.nextSid + 1
    ensures r.dispatcher.sublist.root == QueueSubscribe(d, topicPattern, queue, handler).dispatcher.sublist.root
  {
    var s := Subscription(topicPattern, queue, d.nextSid, handler);
    Subscribed(Dispatcher(InsertAsWritten(d.sublist, topicPattern, s), d.nextSid + 1), s)
  }

  /** Unsubscribe as the source runs it: the sublist removal drops only the
      cached answers the rune-stepped matcher selects (see Findings). */
  function UnsubscribeAsWritten(d: Dispatcher, s: Subscription): (r: Dispatcher)
    ensures r.nextSid == d.nextSid
    ensures r.sublist.root == Unsubscribe(d, s).sublist.root
  {
    Dispatcher(RemoveAsWritten(d.sublist, s.topicPattern, s), d.nextSid)
  }

  // ---------------------------------------------------------------------
  // Publish selection

  /** The subscriptions of `results` with queue name `q`, in order. */
  function Filter(results: seq<Subscription>, q: string): (f: seq<Subscription>)
    ensures forall i | 0 <= i < |f| :: f[i].queue == q && f[i] in results
    ensures forall s :: multiset(f)[s] == if s.queue == q then multiset(results)[s] else 0
  {
    if |results| == 0 then []
    else
      var init := results[..|results| - 1];
      var last := results[|results| - 1];
      assert results == init + [last];
      var f := Filter(init, q);
      if last.queue == q then f + [last] else f
  }

  /** Split a match result into the fan-out subscriptions and one group per
      non-empty queue name, walking the result in order. */
  function Partition(results: seq<Subscription>): (p: Partitioned)
    ensures p.fanOut == Filter(results, "")
    ensures forall q | q in p.groups :: q != "" && p.groups[q] == Filter(results, q) && |p.groups[q]| > 0
    ensures forall q | q != "" && Filter(results, q) != [] :: q in p.groups
  {
    if |results| == 0 then Partitioned([], map[])
    else
      var init := results[..|results| - 1];
      var last := results[|results| - 1];
      var p := Partition(init);
      FilterLastAll(results);
      AddStep(p, last, q => Filter(init, q), q => Filter(results, q));
      Add(p, last)
  }

  /** One more subscription, appended to the fan-out or to its queue's group. */
  function Add(p: Partitioned, last: Subscription): Partitioned
  {
    if last.queue == "" then Partitioned(p.fanOut + [last], p.groups)
    else
      var group := if last.queue in p.groups then p.groups[last.queue] else [];
      Partitioned(p.fanOut, p.groups[last.queue := group + [last]])
  }

  /** Adding a record to a partition by queue of some records gives a
      partition by queue of those records followed by it. The two
      partitions are given by their per-queue contents `before` and
      `after`. */
  lemma AddStep(p: Partitioned, last: Subscription, before: string -> seq<Subscription>, after: string -> seq<Subscription>)
    requires forall q :: after(q) == before(q) + (if last.queue == q then [last] else [])
    requires p.fanOut == before("")
    requires forall q | q in p.groups :: q != "" && p.groups[q] == before(q) && |p.groups[q]| > 0
    requires forall q | q != "" && before(q) != [] :: q in p.groups
    ensures var r := Add(p, last);
            && r.fanOut == after("")
            && (forall q | q in r.groups :: q != "" && r.groups[q] == after(q) && |r.groups[q]| > 0)
            && (forall q | q != "" && after(q) != [] :: q in r.groups)
  {
    var r := Add(p, last);
    forall q | q in r.groups
      ensures q != "" && r.groups[q] == after(q) && |r.groups[q]| > 0
    {
      if last.queue != "" && q == last.queue {
        var group := if q in p.groups then p.groups[q] else [];
        assert group == before(q);
      }
    }
  }

  lemma FilterLastAll(results: seq<Subscription>)
    requires |results| > 0
    ensures forall q :: Filter(results, q) == Filter(results[..|results| - 1], q) +
              (if results[|results| - 1].queue == q then [results[|results| - 1]] else [])
  {
    forall q {
      FilterLast(results, q);
    }
  }

  /** The records of one queue in a result are those of all but its last
      record, followed by the last if it belongs to that queue. */
  lemma FilterLast(results: seq<Subscription>, q: string)
    requires |results| > 0
    ensures Filter(results, q) == Filter(results[..|results| - 1], q) +
              (if results[|results| - 1].queue == q then [results[|results| - 1]] else [])
  {
  }

  /** A chooser picks an index below the group size, as rand.Intn does. */
  ghost predicate Chooser(choose: (string, nat) -> nat)
  {
    forall q: string, n: nat | 0 < n :: choose(q, n) < n
  }

  /** The member a group contributes. */
  function Chosen(results: seq<Subscription>, choose: (string, nat) -> nat, q: string): (s: Subscription)
    requires Chooser(choose) && Filter(results, q) != []
    ensures s.queue == q && s in results
  {
    var g := Filter(results, q);
    g[choose(q, |g|)]
  }

  /** One chosen member from every queue group. */
  function Picks(results: seq<Subscription>, choose: (string, nat) -> nat): (picks: set<Subscription>)
    requires Chooser(choose)
    ensures forall t | t in picks :: t.queue != "" && Filter(results, t.queue) != []
                                     && t == Chosen(results, choose, t.queue)
    ensures forall q | q != "" && Filter(results, q) != [] :: Chosen(results, choose, q) in picks
  {
    var p := Partition(results);
    var picks := set q | q in p.groups :: p.groups[q][choose(q, |p.groups[q]|)];
    PicksChosen(results, choose, p, picks);
    picks
  }

  lemma PicksChosen(results: seq<Subscription>, choose: (string, nat) -> nat, p: Partitioned, picks: set<Subscription>)
    requires Chooser(choose) && p == Partition(results)
    requires picks == set q | q in p.groups :: p.groups[q][choose(q, |p.groups[q]|)]
    ensures forall t | t in picks :: t.queue != "" && Filter(results, t.queue) != []
                                     && t == Chosen(results, choose, t.queue)
    ensures forall q | q != "" && Filter(results, q) != [] :: Chosen(results, choose, q) in picks
  {
    PicksSound(results, choose, p, picks);
    PicksComplete(results, choose, p, picks);
  }

  lemma PicksSound(results: seq<Subscription>, choose: (string, nat) -> nat, p: Partitioned, picks: set<Subscription>)
    requires Chooser(choose) && p == Partition(results)
    requires picks == set q | q in p.groups :: p.groups[q][choose(q, |p.groups[q]|)]
    ensures forall t | t in picks :: t.queue != "" && Filter(results, t.queue) != []
                                     && t == Chosen(results, choose, t.queue)
  {
    forall t | t in picks
      ensures t.queue != "" && Filter(results, t.queue) != [] && t == Chosen(results, choose, t.queue)
    {
      var q :| q in p.groups && t == p.groups[q][choose(q, |p.groups[q]|)];
      var g := p.groups[q];
      assert g == Filter(results, q) && |g| > 0 && q != "";
      var i := choose(q, |g|);
      assert i < |g| && t == g[i];
      assert t.queue == q;
      assert t == Chosen(results, choose, q);
    }
  }

  lemma PicksComplete(results: seq<Subscription>, choose: (string, nat) -> nat, p: Partitioned, picks: set<Subscription>)
    requires Chooser(choose) && p == Partition(results)
    requires picks == set q | q in p.groups :: p.groups[q][choose(q, |p.groups[q]|)]
    ensures forall q | q != "" && Filter(results, q) != [] :: Chosen(results, choose, q) in picks
  {
    forall q | q != "" && Filter(results, q) != []
      ensures Chosen(results, choose, q) in picks
    {
      assert q in p.groups;
    }
  }

  /** Every fan-out subscription, and from every queue group the member the
      chooser names. */
  function Select(results: seq<Subscription>, choose: (string, nat) -> nat): (delivered: multiset<Subscription>)
    requires Chooser(choose)
    ensures forall s | s in delivered :: s in results
    ensures forall s | s in delivered && s.queue != "" :: delivered[s] == 1
  {
    var fanOut := Partition(results).fanOut;
    assert forall s: Subscription | s.queue != "" :: multiset(fanOut)[s] == 0;
    multiset(fanOut) + multiset(Picks(results, choose))
  }

  /** Fan-out subscriptions are delivered once per occurrence in the result. */
  lemma SelectFanOut(results: seq<Subscription>, choose: (string, nat) -> nat, s: Subscription)
    requires Chooser(choose) && s.queue == ""
    ensures Select(results, choose)[s] == multiset(results)[s]
  {
    assert s !in Picks(results, choose);
  }

  /** A delivered member of a queue group is that group's chosen member, delivered once. */
  lemma SelectQueueMember(results: seq<Subscription>, choose: (string, nat) -> nat, t: Subscription)
    requires Chooser(choose) && t in Select(results, choose) && t.queue != ""
    ensures Filter(results, t.queue) != [] && t == Chosen(results, choose, t.queue)
    ensures Select(results, choose)[t] == 1
  {
    assert multiset(Partition(results).fanOut)[t] == 0;
  }

  /** Each queue name present in the result contributes exactly its chosen
      member, once, and no other member of that queue is delivered. */
  lemma SelectOnePerQueue(results: seq<Subscription>, choose: (string, nat) -> nat, q: string)
    requires Chooser(choose) && q != "" && Filter(results, q) != []
    ensures Select(results, choose)[Chosen(results, choose, q)] == 1
    ensures forall t | t in Select(results, choose) && t.queue == q :: t == Chosen(results, choose, q)
  {
    var s := Chosen(results, choose, q);
    assert s in Picks(results, choose);
    SelectQueueMember(results, choose, s);
    forall t | t in Select(results, choose) && t.queue == q ensures t == s {
      SelectQueueMember(results, choose, t);
    }
  }

  /** A queue name absent from the result has nobody delivered. */
  lemma SelectAbsentQueue(results: seq<Subscription>, choose: (string, nat) -> nat, q: string)
    requires Chooser(choose) && q != "" && Filter(results, q) == []
    ensures forall t | t in Select(results, choose) :: t.queue != q
  {
    forall t | t in Select(results, choose) && t.queue != ""
      ensures Filter(results, t.queue) != []
    {
      SelectQueueMember(results, choose, t);
    }
  }

  /** Nothing is delivered more often than the match returned it. */
  lemma SelectWithin(results: seq<Subscription>, choose: (string, nat) -> nat)
    requires Chooser(choose)
    ensures Select(results, choose) <= multiset(results)
  {
    forall s ensures Select(results, choose)[s] <= multiset(results)[s] {
      if s.queue == "" {
        SelectFanOut(results, choose, s);
      } else if s in Select(results, choose) {
        SelectQueueMember(results, choose, s);
      }
    }
  }

  /** With no queue subscriptions among the result, every matched one is delivered. */
  lemma SelectAllFanOut(results: seq<Subscription>, choose: (string, nat) -> nat)
    requires Chooser(choose)
    requires forall i | 0 <= i < |results| :: results[i].queue == ""
    ensures Select(results, choose) == multiset(results)
  {
    SelectWithin(results, choose);
    forall s ensures Select(results, choose)[s] == multiset(results)[s] {
      if s.queue == "" {
        SelectFanOut(results, choose, s);
      } else {
        assert s !in results;
      }
    }
  }

  /** Publish: match the topic, then hand the message to the selection. The
      error is always absent. */
  function Publish(d: Dispatcher, topic: string, victim: string, choose: (string, nat) -> nat): (p: Published)
    requires Chooser(choose)
    requires topic !in d.sublist.cache && |d.sublist.cache| >= d.sublist.cmax ==> victim in d.sublist.cache
    ensures p.err == None
    ensures p.dispatcher.nextSid == d.nextSid && p.dispatcher.sublist.root == d.sublist.root
    ensures p.dispatcher.sublist.cmax == d.sublist.cmax
    ensures p.delivered <= multiset(Match(d.sublist, topic, victim).results)
    ensures Match(d.sublist, topic, victim).results == [] ==> p.delivered == multiset{}
  {
    var m := Match(d.sublist, topic, victim);
    SelectWithin(m.results, choose);
    Published(Dispatcher(m.sublist, d.nextSid), Select(m.results, choose), None)
  }

  // ---------------------------------------------------------------------
  // The invariant is preserved

  lemma QueueSubscribeRegistered(d: Dispatcher, topicPattern: string, queue: string, handler: nat)
    requires Registered(d.sublist.root, d.nextSid) && TokensNonEmpty(topicPattern)
    ensures var r := QueueSubscribe(d, topicPattern, queue, handler).dispatcher;
            Registered(r.sublist.root, r.nextSid)
  {
    var r := QueueSubscribe(d, topicPattern, queue, handler);
    var s := r.subscriber;
    var root := r.dispatcher.sublist.root;
    var own := PathOf(topicPattern);
    forall path: seq<Key>, t: Subscription | t in SubsAt(root, path)
      ensures FiledOnce(root, r.dispatcher.nextSid, path, t)
    {
      var before := SubsAt(d.sublist.root, path);
      assert SubsAt(root, path) == before + (if path == own then [s] else []);
      assert t in before ==> FiledOnce(d.sublist.root, d.nextSid, path, t);
      assert s !in before;
      assert multiset(before + [s]) == multiset(before) + multiset{s};
    }
  }

  lemma QueueSubscribeValid(d: Dispatcher, topicPattern: string, queue: string, handler: nat)
    requires DispatcherValid(d) && Subscribable(topicPattern) && TokensNonEmpty(topicPattern)
    ensures DispatcherValid(QueueSubscribe(d, topicPattern, queue, handler).dispatcher)
    ensures forall path :: QueueSubscribe(d, topicPattern, queue, handler).subscriber !in SubsAt(d.sublist.root, path)
  {
    var r := QueueSubscribe(d, topicPattern, queue, handler);
    var s := r.subscriber;
    assert r.dispatcher.sublist == Insert(d.sublist, topicPattern, s);
    InsertValid(d.sublist, topicPattern, s);
    InsertCoherent(d.sublist, topicPattern, s);
    QueueSubscribeRegistered(d, topicPattern, queue, handler);
    forall path ensures s !in SubsAt(d.sublist.root, path) {
      assert s in SubsAt(d.sublist.root, path) ==> FiledOnce(d.sublist.root, d.nextSid, path, s);
    }
    forall path: seq<Key>, t: Subscription | t in SubsAt(r.dispatcher.sublist.root, path)
      ensures Subscribable(t.topicPattern)
    {
      assert t in SubsAt(d.sublist.root, path) || t == s;
    }
  }

  /** On ASCII patterns and cached topics, a subscribe as the source runs
      it keeps the trie invariant and the registration, and every cached
      answer still holds everything that matches its topic; what is lost is
      that it holds nothing else (see SubscribeAsWrittenMisdelivers). On
      other text even that fails (see SubscribeAsWrittenMisses). No pattern
      needs `>` last here. */
  lemma QueueSubscribeAsWrittenCovers(d: Dispatcher, topicPattern: string, queue: string, handler: nat)
    requires Valid(d.sublist) && CacheCovers(d.sublist) && Registered(d.sublist.root, d.nextSid)
    requires WellFormedPattern(topicPattern) && TokensNonEmpty(topicPattern)
    requires Ascii(topicPattern) && forall k | k in d.sublist.cache :: Ascii(k)
    ensures var r := QueueSubscribeAsWritten(d, topicPattern, queue, handler).dispatcher;
            Valid(r.sublist) && CacheCovers(r.sublist) && Registered(r.sublist.root, r.nextSid)
  {
    var r := QueueSubscribeAsWritten(d, topicPattern, queue, handler);
    var c := QueueSubscribe(d, topicPattern, queue, handler);
    assert c.dispatcher.sublist == Insert(d.sublist, topicPattern, c.subscriber);
    assert r.dispatcher.sublist == InsertAsWritten(d.sublist, topicPattern, c.subscriber);
    InsertValid(d.sublist, topicPattern, c.subscriber);
    MapCard(r.dispatcher.sublist.cache, c.dispatcher.sublist.cache);
    MapCard(c.dispatcher.sublist.cache, r.dispatcher.sublist.cache);
    InsertAsWrittenCovers(d.sublist, topicPattern, c.subscriber);
    QueueSubscribeRegistered(d, topicPattern, queue, handler);
  }

  lemma UnsubscribeRegistered(d: Dispatcher, s: Subscription)
    requires Registered(d.sublist.root, d.nextSid)
    ensures var r := Unsubscribe(d, s); Registered(r.sublist.root, r.nextSid)
  {
    var r := Unsubscribe(d, s);
    var own := PathOf(s.topicPattern);
    forall path: seq<Key>, t: Subscription | t in SubsAt(r.sublist.root, path)
      ensures FiledOnce(r.sublist.root, r.nextSid, path, t)
    {
      var before := SubsAt(d.sublist.root, path);
      var after := SubsAt(r.sublist.root, path);
      assert multiset(after) <= multiset(before) by {
        if path == own {
          assert multiset(after) == multiset(before) - multiset{s};
        }
      }
      assert t in multiset(after);
      assert FiledOnce(d.sublist.root, d.nextSid, path, t);
    }
  }

  lemma UnsubscribeValid(d: Dispatcher, s: Subscription)
    requires DispatcherValid(d)
    ensures DispatcherValid(Unsubscribe(d, s))
  {
    var r := Unsubscribe(d, s);
    var own := PathOf(s.topicPattern);
    assert r.sublist == Remove(d.sublist, s.topicPattern, s);
    RemoveValid(d.sublist, s.topicPattern, s);
    UnsubscribeRegistered(d, s);
    forall path: seq<Key>, t: Subscription | t in SubsAt(r.sublist.root, path)
      ensures Subscribable(t.topicPattern)
    {
      var before := SubsAt(d.sublist.root, path);
      var after := SubsAt(r.sublist.root, path);
      assert multiset(after) <= multiset(before) by {
        if path == own {
          assert multiset(after) == multiset(before) - multiset{s};
        }
      }
      assert t in multiset(after);
    }
    if s in SubsAt(d.sublist.root, own) {
      assert FiledOnce(d.sublist.root, d.nextSid, own, s);
      RemoveCoherent(d.sublist, s.topicPattern, s);
    }
  }

  /** Unsubscribing takes the subscription out entirely; a second call
      changes nothing. */
  lemma UnsubscribeTwice(d: Dispatcher, s: Subscription)
    requires Registered(d.sublist.root, d.nextSid)
    ensures forall path :: s !in SubsAt(Unsubscribe(d, s).sublist.root, path)
    ensures Unsubscribe(Unsubscribe(d, s), s) == Unsubscribe(d, s)
  {
    var r := Unsubscribe(d, s);
    var own := PathOf(s.topicPattern);
    forall path ensures s !in SubsAt(r.sublist.root, path) {
      var before := SubsAt(d.sublist.root, path);
      assert s in before ==> FiledOnce(d.sublist.root, d.nextSid, path, s);
      assert path == own ==> multiset(SubsAt(r.sublist.root, own))[s] == 0;
    }
  }

  lemma PublishValid(d: Dispatcher, topic: string, victim: string, choose: (string, nat) -> nat)
    requires Chooser(choose)
    requires topic !in d.sublist.cache && |d.sublist.cache| >= d.sublist.cmax ==> victim in d.sublist.cache
    requires DispatcherValid(d)
    ensures DispatcherValid(Publish(d, topic, victim, choose).dispatcher)
  {
    var m := Match(d.sublist, topic, victim);
    assert Publish(d, topic, victim, choose).dispatcher == Dispatcher(m.sublist, d.nextSid);
    MatchValid(d.sublist, topic, victim);
    MatchCoherent(d.sublist, topic, victim);
  }

  /** On a valid dispatcher every delivered subscription's own pattern
      matches the published topic. */
  lemma PublishDeliversMatching(d: Dispatcher, topic: string, victim: string, choose: (string, nat) -> nat)
    requires Chooser(choose)
    requires topic !in d.sublist.cache && |d.sublist.cache| >= d.sublist.cmax ==> victim in d.sublist.cache
    requires DispatcherValid(d) && ValidTopic(topic)
    ensures forall s | s in Publish(d, topic, victim, choose).delivered ::
              TokensNonEmpty(s.topicPattern) && KeyMatch(PathOf(s.topicPattern), Split(topic))
  {
    var results := Match(d.sublist, topic, victim).results;
    forall s | s in Publish(d, topic, victim, choose).delivered
      ensures TokensNonEmpty(s.topicPattern) && KeyMatch(PathOf(s.topicPattern), Split(topic))
    {
      assert s in multiset(results);
      MatchMembers(d.sublist, topic, victim, s);
      var path :| KeyMatch(path, Split(topic)) && s in SubsAt(d.sublist.root, path);
    }
  }

  // ---------------------------------------------------------------------
  // The two cache discrepancies, seen by a publisher

  /** A topic published once with nobody subscribed, then a pattern that
      the rune-stepped matcher selects for it although the exact one does
      not: as written, the next publish of the topic reaches the new
      subscription; corrected, it reaches nobody. */
  lemma SubscribeAsWrittenMisdeliversWith(topic: string, pattern: string, choose: (string, nat) -> nat)
    requires Chooser(choose) && TokensNonEmpty(pattern)
    requires MatchLiteralRunes(topic, pattern) && !MatchLiteralExact(topic, pattern)
    ensures
      var d1 := Publish(NewDispatcher(), topic, "", choose).dispatcher;
      var w := QueueSubscribeAsWritten(d1, pattern, "", 1);
      var c := QueueSubscribe(d1, pattern, "", 1);
      && Publish(w.dispatcher, topic, "", choose).delivered == multiset{w.subscriber}
      && Publish(c.dispatcher, topic, "", choose).delivered == multiset{}
  {
    var d1 := Publish(NewDispatcher(), topic, "", choose).dispatcher;
    FirstPublishCaches(topic, choose);
    var w := QueueSubscribeAsWritten(d1, pattern, "", 1);
    var c := QueueSubscribe(d1, pattern, "", 1);
    assert w.dispatcher.sublist.cache == AddToCacheAsWritten(map[topic := []], pattern, w.subscriber);
    assert w.dispatcher.sublist.cache[topic] == [w.subscriber];
    assert c.dispatcher.sublist.cache == AddToCache(map[topic := []], pattern, c.subscriber);
    assert c.dispatcher.sublist.cache[topic] == [];
    PublishCached(w.dispatcher, topic, choose);
    PublishCached(c.dispatcher, topic, choose);
    SelectAllFanOut([w.subscriber], choose);
  }

  /** The first publish to a fresh dispatcher caches an empty answer. */
  lemma FirstPublishCaches(topic: string, choose: (string, nat) -> nat)
    requires Chooser(choose)
    ensures Publish(NewDispatcher(), topic, "", choose).dispatcher.sublist.cache == map[topic := []]
  {
    var d := NewDispatcher();
    assert NumNodes(d.sublist.root) == 0;
    assert MatchLevel(d.sublist.root, Split(topic)) == [];
  }

  /** A cached topic is answered from the cache. */
  lemma PublishCached(d: Dispatcher, topic: string, choose: (string, nat) -> nat)
    requires Chooser(choose) && topic in d.sublist.cache
    ensures Publish(d, topic, "", choose).delivered == Select(d.sublist.cache[topic], choose)
  {
  }

  /** Published `foo.bar`, subscribed `foo`: as written `foo.bar` is then
      delivered to the `foo` subscription. */
  lemma SubscribeAsWrittenMisdelivers(choose: (string, nat) -> nat)
    requires Chooser(choose)
    ensures TokensNonEmpty("foo") && !KeyMatch(PathOf("foo"), Split("foo.bar"))
    ensures
      var d1 := Publish(NewDispatcher(), "foo.bar", "", choose).dispatcher;
      var w := QueueSubscribeAsWritten(d1, "foo", "", 1);
      var c := QueueSubscribe(d1, "foo", "", 1);
      && Publish(w.dispatcher, "foo.bar", "", choose).delivered == multiset{w.subscriber}
      && Publish(c.dispatcher, "foo.bar", "", choose).delivered == multiset{}
  {
    SplitSingle("foo");
    assert TokensNonEmpty("foo");
    assert Ascii("foo") && Ascii("foo.bar");
    MatchLiteralAcceptsPrefix();
    SubscribeAsWrittenMisdeliversWith("foo.bar", "foo", choose);
  }

  /** A topic published once with nobody subscribed, then subscribed under
      its own name, which the rune-stepped matcher does not select: as
      written, the next publish of the topic reaches nobody; corrected, it
      reaches the new subscription. */
  lemma SubscribeAsWrittenMissesWith(topic: string, choose: (string, nat) -> nat)
    requires Chooser(choose) && TokensNonEmpty(topic) && KeyMatch(PathOf(topic), Split(topic))
    requires MatchLiteralExact(topic, topic) && !MatchLiteralRunes(topic, topic)
    ensures
      var d1 := Publish(NewDispatcher(), topic, "", choose).dispatcher;
      var w := QueueSubscribeAsWritten(d1, topic, "", 1);
      var c := QueueSubscribe(d1, topic, "", 1);
      && MatchLevel(w.dispatcher.sublist.root, Split(topic)) == [w.subscriber]
      && Publish(w.dispatcher, topic, "", choose).delivered == multiset{}
      && Publish(c.dispatcher, topic, "", choose).delivered == multiset{c.subscriber}
  {
    var d1 := Publish(NewDispatcher(), topic, "", choose).dispatcher;
    assert d1.sublist == Match(NewSublist<Subscription>(), topic, "").sublist;
    var w := QueueSubscribeAsWritten(d1, topic, "", 1);
    var c := QueueSubscribe(d1, topic, "", 1);
    InsertAsWrittenMissesWith(topic, w.subscriber);
    assert w.dispatcher.sublist == InsertAsWritten(d1.sublist, topic, w.subscriber);
    assert c.dispatcher.sublist == Insert(d1.sublist, topic, c.subscriber);
    PublishCached(w.dispatcher, topic, choose);
    PublishCached(c.dispatcher, topic, choose);
    SelectAllFanOut([c.subscriber], choose);
  }

  /** Published `é.x`, then subscribed `é.x`: as written the next publish of
      `é.x` reaches nobody. */
  lemma SubscribeAsWrittenMisses(choose: (string, nat) -> nat)
    requires Chooser(choose)
    ensures var t := "\U{E9}.x";
      && TokensNonEmpty(t)
      && var d1 := Publish(NewDispatcher(), t, "", choose).dispatcher;
         var w := QueueSubscribeAsWritten(d1, t, "", 1);
         var c := QueueSubscribe(d1, t, "", 1);
         && MatchLevel(w.dispatcher.sublist.root, Split(t)) == [w.subscriber]
         && Publish(w.dispatcher, t, "", choose).delivered == multiset{}
         && Publish(c.dispatcher, t, "", choose).delivered == multiset{c.subscriber}
  {
    MatchLiteralRunesMisses();
    AccentTopic();
    var t := "\U{E9}.x";
    assert PartialWildcard !in t && FullWildcard !in t;
    assert MatchLiteralExact(t, t);
    SubscribeAsWrittenMissesWith(t, choose);
  }

  /** A topic subscribed under its own name and published once, whose own
      pattern the rune-stepped matcher does not select: after unsubscribing
      as written, the next publish still reaches the removed subscription;
      corrected, it reaches nobody. */
  lemma UnsubscribeAsWrittenDeliversWith(topic: string, choose: (string, nat) -> nat)
    requires Chooser(choose) && TokensNonEmpty(topic) && KeyMatch(PathOf(topic), Split(topic))
    requires MatchLiteral(topic, topic) && !MatchLiteralRunes(topic, topic)
    ensures
      var r := Subscribe(NewDispatcher(), topic, 1);
      var d1 := Publish(r.dispatcher, topic, "", choose).dispatcher;
      var w := UnsubscribeAsWritten(d1, r.subscriber);
      var c := Unsubscribe(d1, r.subscriber);
      && topic in w.sublist.cache
      && Publish(w, topic, "", choose).delivered == multiset{r.subscriber}
      && c.sublist.cache == map[] && c.sublist.cmax > 0
      && Publish(c, topic, "", choose).delivered == multiset{}
  {
    var r := Subscribe(NewDispatcher(), topic, 1);
    var s := r.subscriber;
    var d1 := Publish(r.dispatcher, topic, "", choose).dispatcher;
    assert d1.sublist == Match(Insert(NewSublist<Subscription>(), topic, s), topic, "").sublist;
    RemoveAsWrittenKeepsStaleWith(topic, s);
    UnsubscribeAsWrittenDeliversFrom(d1, s, topic, choose);
  }

  lemma UnsubscribeAsWrittenDeliversFrom(d: Dispatcher, s: Subscription, topic: string, choose: (string, nat) -> nat)
    requires Chooser(choose) && s.queue == "" && s.topicPattern == topic
    requires d.sublist.cache.Keys == {topic} && d.sublist.cmax > 0
    requires topic in RemoveAsWritten(d.sublist, topic, s).cache
    requires RemoveAsWritten(d.sublist, topic, s).cache[topic] == [s]
    requires MatchLevel(RemoveAsWritten(d.sublist, topic, s).root, Split(topic)) == []
    requires topic !in Remove(d.sublist, topic, s).cache
    ensures topic in UnsubscribeAsWritten(d, s).sublist.cache
    ensures Publish(UnsubscribeAsWritten(d, s), topic, "", choose).delivered == multiset{s}
    ensures Unsubscribe(d, s).sublist.cache == map[] && Unsubscribe(d, s).sublist.cmax > 0
    ensures Publish(Unsubscribe(d, s), topic, "", choose).delivered == multiset{}
  {
    StaleAnswerDelivered(d, s, topic, choose);
    EmptiedTopicSilent(d, s, topic, choose);
  }

  lemma StaleAnswerDelivered(d: Dispatcher, s: Subscription, topic: string, choose: (string, nat) -> nat)
    requires Chooser(choose) && s.queue == "" && s.topicPattern == topic
    requires topic in RemoveAsWritten(d.sublist, topic, s).cache
    requires RemoveAsWritten(d.sublist, topic, s).cache[topic] == [s]
    ensures Publish(UnsubscribeAsWritten(d, s), topic, "", choose).delivered == multiset{s}
  {
    PublishCached(UnsubscribeAsWritten(d, s), topic, choose);
    SelectAllFanOut([s], choose);
  }

  lemma EmptiedTopicSilent(d: Dispatcher, s: Subscription, topic: string, choose: (string, nat) -> nat)
    requires Chooser(choose) && s.topicPattern == topic
    requires d.sublist.cmax > 0 && d.sublist.cache.Keys == {topic}
    requires topic !in Remove(d.sublist, topic, s).cache
    requires MatchLevel(Remove(d.sublist, topic, s).root, Split(topic)) == []
    ensures Unsubscribe(d, s).sublist.cache == map[] && Unsubscribe(d, s).sublist.cmax > 0
    ensures Publish(Unsubscribe(d, s), topic, "", choose).delivered == multiset{}
  {
    var sl := Remove(d.sublist, topic, s);
    assert Unsubscribe(d, s).sublist == sl;
    assert sl.cache.Keys == {};
    assert sl.cache == map[];
    assert |sl.cache| == 0 < sl.cmax;
  }

  /** Subscribed and published `é.x`: as written, unsubscribing leaves the
      handler receiving `é.x`. */
  lemma UnsubscribeAsWrittenDelivers(choose: (string, nat) -> nat)
    requires Chooser(choose)
    ensures var t := "\U{E9}.x";
      && TokensNonEmpty(t)
      && var r := Subscribe(NewDispatcher(), t, 1);
         var d1 := Publish(r.dispatcher, t, "", choose).dispatcher;
         var w := UnsubscribeAsWritten(d1, r.subscriber);
         var c := Unsubscribe(d1, r.subscriber);
         && t in w.sublist.cache
         && Publish(w, t, "", choose).delivered == multiset{r.subscriber}
         && c.sublist.cache == map[] && c.sublist.cmax > 0
         && Publish(c, t, "", choose).delivered == multiset{}
  {
    MatchLiteralRunesMisses();
    AccentTopic();
    UnsubscribeAsWrittenDeliversWith("\U{E9}.x", choose);
  }

  // ---------------------------------------------------------------------
  // The messaging test scenario

  lemma ScenarioTokens()
    ensures Split("a.*") == ["a", "*"] && Split("a.*.*") == ["a", "*", "*"]
    ensures Split("a.b.c") == ["a", "b", "c"] && Split("a.b") == ["a", "b"]
  {
    SplitSingle("a");
    SplitSingle("b");
    SplitSingle("c");
    SplitSingle("*");
    SplitAtSep("a", "*");
    SplitAtSep("*", "*");
    SplitAtSep("a", "*.*");
    SplitAtSep("b", "c");
    SplitAtSep("a", "b.c");
    SplitAtSep("a", "b");
  }

  /** Every subscription in a result with only fan-out members is delivered. */
  lemma DeliverAll(results: seq<Subscription>, choose: (string, nat) -> nat, expected: multiset<Subscription>)
    requires Chooser(choose) && multiset(results) == expected
    requires forall s | s in expected :: s.queue == ""
    ensures Select(results, choose) == expected
  {
    forall i | 0 <= i < |results| ensures results[i].queue == "" {
      assert results[i] in multiset(results);
    }
    SelectAllFanOut(results, choose);
  }

  /** Publishing an uncached topic on a cache with room delivers the whole
      trie answer when it holds only fan-out subscriptions. */
  lemma PublishFanOut(d: Dispatcher, topic: string, choose: (string, nat) -> nat, expected: multiset<Subscription>)
    requires Chooser(choose) && topic !in d.sublist.cache && |d.sublist.cache| < d.sublist.cmax
    requires multiset(MatchLevel(d.sublist.root, Split(topic))) == expected
    requires forall s | s in expected :: s.queue == ""
    ensures Publish(d, topic, "", choose).delivered == expected
    ensures Publish(d, topic, "", choose).dispatcher.sublist.cache == d.sublist.cache[topic := MatchLevel(d.sublist.root, Split(topic))]
    ensures Publish(d, topic, "", choose).dispatcher.sublist.root == d.sublist.root
    ensures Publish(d, topic, "", choose).dispatcher.sublist.cmax == d.sublist.cmax
  {
    var m := Match(d.sublist, topic, "");
    assert m.results == MatchLevel(d.sublist.root, Split(topic));
    DeliverAll(m.results, choose, expected);
  }

  /** On an empty cache a plain subscription files itself in the trie and
      leaves the cache empty. */
  lemma SubscribeStep(d: Dispatcher, topicPattern: string, handler: nat)
    requires TokensNonEmpty(topicPattern) && d.sublist.cache == map[]
    ensures var r := Subscribe(d, topicPattern, handler);
            && r.dispatcher.sublist.root == InsertLevel(d.sublist.root, PathOf(topicPattern), r.subscriber)
            && r.dispatcher.sublist.cache == map[] && r.dispatcher.sublist.cmax == d.sublist.cmax
  {
  }

  /** A trie built by three insertions into an empty one, of which only the
      last pattern matches, answers with the last subscription alone. */
  lemma OnlyThirdMatches(root0: Level<Subscription>, root1: Level<Subscription>, root2: Level<Subscription>,
                         root3: Level<Subscription>, p1: seq<Key>, p2: seq<Key>, p3: seq<Key>,
                         s1: Subscription, s2: Subscription, s3: Subscription, tokens: seq<string>)
    requires NumNodes(root0) == 0 && |p1| >= 1 && |p2| >= 1 && |p3| >= 1
    requires root1 == InsertLevel(root0, p1, s1)
    requires root2 == InsertLevel(root1, p2, s2)
    requires root3 == InsertLevel(root2, p3, s3)
    requires !KeyMatch(p1, tokens) && !KeyMatch(p2, tokens) && KeyMatch(p3, tokens)
    ensures multiset(MatchLevel(root3, tokens)) == multiset{s3}
  {
    EmptyMatch(root0, tokens);
    InsertUnmatched(root0, p1, s1, tokens, multiset{});
    InsertUnmatched(root1, p2, s2, tokens, multiset{});
    InsertMatched(root2, p3, s3, tokens, multiset{});
  }

  /** A trie built by three insertions into an empty one, of which only the
      first two patterns match, answers with the first two subscriptions. */
  lemma FirstTwoMatch(root0: Level<Subscription>, root1: Level<Subscription>, root2: Level<Subscription>,
                      root3: Level<Subscription>, p1: seq<Key>, p2: seq<Key>, p3: seq<Key>,
                      s1: Subscription, s2: Subscription, s3: Subscription, tokens: seq<string>)
    requires NumNodes(root0) == 0 && |p1| >= 1 && |p2| >= 1 && |p3| >= 1
    requires root1 == InsertLevel(root0, p1, s1)
    requires root2 == InsertLevel(root1, p2, s2)
    requires root3 == InsertLevel(root2, p3, s3)
    requires KeyMatch(p1, tokens) && KeyMatch(p2, tokens) && !KeyMatch(p3, tokens)
    ensures multiset(MatchLevel(root3, tokens)) == multiset{s1} + multiset{s2}
  {
    EmptyMatch(root0, tokens);
    InsertMatched(root0, p1, s1, tokens, multiset{});
    InsertMatched(root1, p2, s2, tokens, multiset{s1});
    InsertUnmatched(root2, p3, s3, tokens, multiset{s1} + multiset{s2});
  }

  /** Inserting under a matching path adds the subscription to the answer. */
  lemma InsertMatched(l: Level<Subscription>, path: seq<Key>, s: Subscription, tokens: seq<string>,
                      before: multiset<Subscription>)
    requires |path| >= 1 && KeyMatch(path, tokens) && multiset(MatchLevel(l, tokens)) == before
    ensures multiset(MatchLevel(InsertLevel(l, path, s), tokens)) == before + multiset{s}
  {
    MatchAfterInsert(l, path, s, tokens);
  }

  /** Inserting under a path that does not match leaves the answer alone. */
  lemma InsertUnmatched(l: Level<Subscription>, path: seq<Key>, s: Subscription, tokens: seq<string>,
                        before: multiset<Subscription>)
    requires |path| >= 1 && !KeyMatch(path, tokens) && multiset(MatchLevel(l, tokens)) == before
    ensures multiset(MatchLevel(InsertLevel(l, path, s), tokens)) == before
  {
    MatchAfterInsert(l, path, s, tokens);
  }

  /** A level without children matches nothing. */
  lemma EmptyMatch(l: Level<Subscription>, tokens: seq<string>)
    requires NumNodes(l) == 0
    ensures MatchLevel(l, tokens) == []
  {
    if |tokens| > 0 {
      assert tokens[0] !in l.nodes;
    }
  }

  /** Which of the scenario's patterns match which of its topics. */
  lemma ScenarioKeys()
    ensures !KeyMatch([Literal("a"), Partial], ["a", "b", "c"])
    ensures KeyMatch([Literal("a"), Partial, Partial], ["a", "b", "c"])
    ensures KeyMatch([Literal("a"), Partial], ["a", "b"])
    ensures !KeyMatch([Literal("a"), Partial, Partial], ["a", "b"])
  {
    assert !KeyMatch([Partial], []);
    assert !KeyMatch([Partial, Partial], ["b"]);
    assert !KeyMatch([Partial, Partial], ["c"]);
  }

  /** Two publishes of distinct uncached topics on an empty cache each
      deliver their trie answer, and the first leaves one cached entry. */
  lemma PublishTwice(d: Dispatcher, t1: string, t2: string, choose: (string, nat) -> nat,
                     e1: multiset<Subscription>, e2: multiset<Subscription>)
    requires Chooser(choose) && d.sublist.cache == map[] && d.sublist.cmax >= 2 && t1 != t2
    requires multiset(MatchLevel(d.sublist.root, Split(t1))) == e1
    requires multiset(MatchLevel(d.sublist.root, Split(t2))) == e2
    requires forall s | s in e1 :: s.queue == ""
    requires forall s | s in e2 :: s.queue == ""
    ensures var p1 := Publish(d, t1, "", choose);
            && p1.err == None && p1.delivered == e1 && |p1.dispatcher.sublist.cache| == 1
            && var p2 := Publish(p1.dispatcher, t2, "", choose);
               p2.err == None && p2.delivered == e2
  {
    PublishFanOut(d, t1, choose, e1);
    var d1 := Publish(d, t1, "", choose).dispatcher;
    assert d1.sublist.cache == map[t1 := MatchLevel(d.sublist.root, Split(t1))];
    PublishFanOut(d1, t2, choose, e2);
  }

  /** The dispatcher after the scenario's three subscriptions, for any
      spelling of the patterns and topics that splits into its tokens. */
  lemma SubscribedWith(pa: string, paa: string, abc: string, ab: string)
    requires Split(pa) == ["a", "*"] && Split(paa) == ["a", "*", "*"]
    requires Split(abc) == ["a", "b", "c"] && Split(ab) == ["a", "b"]
    ensures TokensNonEmpty(pa) && TokensNonEmpty(paa)
    ensures
      var r1 := Subscribe(NewDispatcher(), pa, 1);
      var r2 := Subscribe(r1.dispatcher, pa, 2);
      var r3 := Subscribe(r2.dispatcher, paa, 3);
      var d := r3.dispatcher;
      && d.sublist.cache == map[] && d.sublist.cmax == DefaultCacheMax
      && multiset(MatchLevel(d.sublist.root, Split(abc))) == multiset{r3.subscriber}
      && multiset(MatchLevel(d.sublist.root, Split(ab))) == multiset{r1.subscriber} + multiset{r2.subscriber}
      && r1.subscriber.queue == "" && r2.subscriber.queue == "" && r3.subscriber.queue == ""
  {
    assert PathOf(pa) == [Literal("a"), Partial];
    assert PathOf(paa) == [Literal("a"), Partial, Partial];
    ScenarioRoots(pa, paa);
    var d0 := NewDispatcher();
    var r1 := Subscribe(d0, pa, 1);
    var r2 := Subscribe(r1.dispatcher, pa, 2);
    var r3 := Subscribe(r2.dispatcher, paa, 3);
    var s1, s2, s3 := r1.subscriber, r2.subscriber, r3.subscriber;
    var root0, root1, root2, root3 := d0.sublist.root, r1.dispatcher.sublist.root, r2.dispatcher.sublist.root, r3.dispatcher.sublist.root;
    ScenarioKeys();
    OnlyThirdMatches(root0, root1, root2, root3, PathOf(pa), PathOf(pa), PathOf(paa), s1, s2, s3, Split(abc));
    FirstTwoMatch(root0, root1, root2, root3, PathOf(pa), PathOf(pa), PathOf(paa), s1, s2, s3, Split(ab));
  }

  /** Three subscriptions on a new dispatcher file three entries and leave
      the cache empty. */
  lemma ScenarioRoots(pa: string, paa: string)
    requires TokensNonEmpty(pa) && TokensNonEmpty(paa)
    ensures
      var d0 := NewDispatcher();
      var r1 := Subscribe(d0, pa, 1);
      var r2 := Subscribe(r1.dispatcher, pa, 2);
      var r3 := Subscribe(r2.dispatcher, paa, 3);
      && NumNodes(d0.sublist.root) == 0
      && r1.dispatcher.sublist.root == InsertLevel(d0.sublist.root, PathOf(pa), r1.subscriber)
      && r2.dispatcher.sublist.root == InsertLevel(r1.dispatcher.sublist.root, PathOf(pa), r2.subscriber)
      && r3.dispatcher.sublist.root == InsertLevel(r2.dispatcher.sublist.root, PathOf(paa), r3.subscriber)
      && r3.dispatcher.sublist.cache == map[] && r3.dispatcher.sublist.cmax == DefaultCacheMax
      && r1.subscriber.queue == "" && r2.subscriber.queue == "" && r3.subscriber.queue == ""
  {
    var d0 := NewDispatcher();
    SubscribeStep(d0, pa, 1);
    var r1 := Subscribe(d0, pa, 1);
    SubscribeStep(r1.dispatcher, pa, 2);
    var r2 := Subscribe(r1.dispatcher, pa, 2);
    SubscribeStep(r2.dispatcher, paa, 3);
  }


  /** The scenario's subscriptions and publishes, for any spelling of the
      patterns and topics that splits into the scenario's tokens. */
  lemma ScenarioWith(choose: (string, nat) -> nat, pa: string, paa: string, abc: string, ab: string)
    requires Chooser(choose)
    requires Split(pa) == ["a", "*"] && Split(paa) == ["a", "*", "*"]
    requires Split(abc) == ["a", "b", "c"] && Split(ab) == ["a", "b"] && abc != ab
    ensures TokensNonEmpty(pa) && TokensNonEmpty(paa)
    ensures
      var r1 := Subscribe(NewDispatcher(), pa, 1);
      var r2 := Subscribe(r1.dispatcher, pa, 2);
      var r3 := Subscribe(r2.dispatcher, paa, 3);
      var p1 := Publish(r3.dispatcher, abc, "", choose);
      && r3.dispatcher.sublist.cache == map[] && r3.dispatcher.sublist.cmax == DefaultCacheMax
      && p1.err == None && p1.delivered == multiset{r3.subscriber}
      && |p1.dispatcher.sublist.cache| == 1
      && var p2 := Publish(p1.dispatcher, ab, "", choose);
         p2.err == None && p2.delivered == multiset{r1.subscriber} + multiset{r2.subscriber}
  {
    SubscribedWith(pa, paa, abc, ab);
    var r1 := Subscribe(NewDispatcher(), pa, 1);
    var r2 := Subscribe(r1.dispatcher, pa, 2);
    var r3 := Subscribe(r2.dispatcher, paa, 3);
    ScenarioPublishes(choose, r3.dispatcher, r1.subscriber, r2.subscriber, r3.subscriber, abc, ab);
  }

  /** The scenario's two publishes, on the dispatcher the subscriptions leave. */
  lemma ScenarioPublishes(choose: (string, nat) -> nat, d: Dispatcher, s1: Subscription, s2: Subscription,
                          s3: Subscription, abc: string, ab: string)
    requires Chooser(choose) && abc != ab
    requires d.sublist.cache == map[] && d.sublist.cmax == DefaultCacheMax
    requires multiset(MatchLevel(d.sublist.root, Split(abc))) == multiset{s3}
    requires multiset(MatchLevel(d.sublist.root, Split(ab))) == multiset{s1} + multiset{s2}
    requires s1.queue == "" && s2.queue == "" && s3.queue == ""
    ensures var p1 := Publish(d, abc, "", choose);
            && p1.err == None && p1.delivered == multiset{s3}
            && |p1.dispatcher.sublist.cache| == 1
            && var p2 := Publish(p1.dispatcher, ab, "", choose);
               p2.err == None && p2.delivered == multiset{s1} + multiset{s2}
  {
    PublishTwice(d, abc, ab, choose, multiset{s3}, multiset{s1} + multiset{s2});
  }

  /** Two plain subscriptions to `a.*` and one to `a.*.*`: publishing `a.b.c`
      selects only the third, and publishing `a.b` then selects the first two. */
  lemma MessagingScenario(choose: (string, nat) -> nat)
    requires Chooser(choose)
    ensures TokensNonEmpty("a.*") && TokensNonEmpty("a.*.*")
    ensures
      var r1 := Subscribe(NewDispatcher(), "a.*", 1);
      var r2 := Subscribe(r1.dispatcher, "a.*", 2);
      var r3 := Subscribe(r2.dispatcher, "a.*.*", 3);
      var p1 := Publish(r3.dispatcher, "a.b.c", "", choose);
      && r3.dispatcher.sublist.cache == map[] && r3.dispatcher.sublist.cmax == DefaultCacheMax
      && p1.err == None && p1.delivered == multiset{r3.subscriber}
      && |p1.dispatcher.sublist.cache| == 1
      && var p2 := Publish(p1.dispatcher, "a.b", "", choose);
         p2.err == None && p2.delivered == multiset{r1.subscriber} + multiset{r2.subscriber}
  {
    ScenarioTokens();
    ScenarioWith(choose, "a.*", "a.*.*", "a.b.c", "a.b");
  }
}
