/** The subscription trie of a Sublist: each level maps literal tokens to
    nodes and has one slot for a `*` node and one for a `>` node; each node
    holds the subscriptions whose pattern ends there and the next level.

    A node's next level is always present here; the source leaves it nil
    until needed, and a nil level and an empty level behave alike in every
    walk (matching, removal, emptiness, depth). */
module Trie {
  import opened Tokens

  datatype Option<T> = None | Some(value: T)

  /** Where a pattern token is filed within a level. */
  datatype Key = Literal(token: string) | Partial | Full

  datatype Node<S> = Node(next: Level<S>, subs: seq<S>)

  datatype Level<S> = Level(nodes: map<string, Node<S>>, pwc: Option<Node<S>>, fwc: Option<Node<S>>)

  function EmptyLevel<S>(): Level<S>
  {
    Level(map[], None, None)
  }

  function NewNode<S>(): Node<S>
  {
    Node(EmptyLevel(), [])
  }

  /** The slot of a token is decided by its first character only. The empty
      token, which Insert never files, is looked up as the literal "" (a
      slot no insert fills), so a removal that reaches it finds nothing. */
  function TokenKey(token: string): (k: Key)
    ensures k == Partial <==> |token| > 0 && token[0] == PartialWildcard
    ensures k == Full <==> |token| > 0 && token[0] == FullWildcard
    ensures k.Literal? ==> k.token == token
  {
    if |token| == 0 then Literal(token)
    else if token[0] == PartialWildcard then Partial
    else if token[0] == FullWildcard then Full
    else Literal(token)
  }

  function PatternKeys(tokens: seq<string>): (keys: seq<Key>)
    ensures |keys| == |tokens|
    ensures forall i | 0 <= i < |tokens| :: keys[i] == TokenKey(tokens[i])
  {
    seq(|tokens|, i requires 0 <= i < |tokens| => TokenKey(tokens[i]))
  }

  lemma PatternKeysTail(tokens: seq<string>)
    requires |tokens| >= 1
    ensures PatternKeys(tokens)[1..] == PatternKeys(tokens[1..])
  {
  }

  /** The key path of a pattern string. */
  function PathOf(pattern: string): (path: seq<Key>)
    ensures |path| == |Split(pattern)| >= 1
  {
    PatternKeys(Split(pattern))
  }

  // ---------------------------------------------------------------------
  // Reference semantics of wildcard matching

  /** Token-wise matching of a key path against the tokens of a subject:
      a literal must equal the token, `*` takes exactly one token, and `>`
      takes all remaining tokens, of which there must be at least one.
      A `>` that is not last matches nothing. */
  predicate KeyMatch(path: seq<Key>, tokens: seq<string>)
    decreases |path|
  {
    if |path| == 0 then |tokens| == 0
    else if |tokens| == 0 then false
    else match path[0]
      case Full => |path| == 1
      case Partial => KeyMatch(path[1..], tokens[1..])
      case Literal(t) => t == tokens[0] && KeyMatch(path[1..], tokens[1..])
  }

  /** A match uses up the tokens exactly when it uses up the path. */
  lemma KeyMatchLength(path: seq<Key>, tokens: seq<string>)
    requires KeyMatch(path, tokens)
    ensures |path| == 0 <==> |tokens| == 0
  {
  }

  /** The wildcard cases the sublist tests exercise: `*` stands for one
      token anywhere, `>` for one or more trailing tokens and for nothing
      when it is not last, and a literal path matches only its own length. */
  lemma KeyMatchCases()
    ensures KeyMatch([Literal("a"), Partial, Literal("c")], ["a", "b", "c"])
    ensures KeyMatch([Literal("a"), Literal("b"), Partial], ["a", "b", "c"])
    ensures KeyMatch([Literal("a"), Full], ["a", "b", "c"])
    ensures !KeyMatch([Literal("a"), Full], ["a"])
    ensures !KeyMatch([Literal("a"), Full, Literal("c")], ["a", "b", "c"])
    ensures !KeyMatch([Literal("a"), Literal("b"), Literal("c")], ["a", "b", "c", "d"])
    ensures !KeyMatch([Literal("a"), Literal("b"), Literal("c"), Literal("d")], ["a", "b", "c"])
  {
  }

  // ---------------------------------------------------------------------
  // Level slots

  function Child<S>(l: Level<S>, k: Key): Option<Node<S>>
  {
    match k
    case Partial => l.pwc
    case Full => l.fwc
    case Literal(t) => if t in l.nodes then Some(l.nodes[t]) else None
  }

  function SetChild<S>(l: Level<S>, k: Key, n: Node<S>): (r: Level<S>)
    ensures Child(r, k) == Some(n)
    ensures forall k' | k' != k :: Child(r, k') == Child(l, k')
  {
    match k
    case Partial => l.(pwc := Some(n))
    case Full => l.(fwc := Some(n))
    case Literal(t) => l.(nodes := l.nodes[t := n])
  }

  /** Unhook the node filed under `k` (the source's pruneNode). */
  function PruneNode<S>(l: Level<S>, k: Key): (r: Level<S>)
    ensures Child(r, k) == None
    ensures forall k' | k' != k :: Child(r, k') == Child(l, k')
  {
    match k
    case Full => l.(fwc := None)
    case Partial => l.(pwc := None)
    case Literal(t) => l.(nodes := l.nodes - {t})
  }

  /** The number of children of a level: it is zero exactly when no slot
      holds a node. */
  function NumNodes<S>(l: Level<S>): (c: nat)
    ensures c == 0 <==> forall k :: Child(l, k) == None
  {
    NoChildNoNodes(l);
    |l.nodes| + (if l.pwc.Some? then 1 else 0) + (if l.fwc.Some? then 1 else 0)
  }

  lemma NoChildNoNodes<S>(l: Level<S>)
    ensures (forall k :: Child(l, k) == None) <==> l.nodes == map[] && l.pwc.None? && l.fwc.None?
  {
    if l.nodes != map[] {
      var t :| t in l.nodes;
      assert Child(l, Literal(t)).Some?;
    }
    assert Child(l, Partial) == l.pwc && Child(l, Full) == l.fwc;
  }

  /** A node with no subscriptions and no children is pruned. */
  predicate IsEmpty<S>(n: Node<S>)
    ensures IsEmpty(n) <==> n.subs == [] && forall k :: Child(n.next, k) == None
  {
    |n.subs| == 0 && NumNodes(n.next) == 0
  }

  // ---------------------------------------------------------------------
  // What is stored where

  /** The subscriptions stored at the node a key path leads to (none if the
      path leads nowhere; the root level itself holds none). */
  function SubsAt<S>(l: Level<S>, path: seq<Key>): seq<S>
    decreases |path|, 1
  {
    if |path| == 0 then []
    else match Child(l, path[0])
      case None => []
      case Some(n) => NodeSubsAt(n, path[1..])
  }

  function NodeSubsAt<S>(n: Node<S>, rest: seq<Key>): seq<S>
    decreases |rest|, 2
  {
    if |rest| == 0 then n.subs else SubsAt(n.next, rest)
  }

  lemma SubsAtEmptyLevel<S>(l: Level<S>, path: seq<Key>)
    requires NumNodes(l) == 0
    ensures SubsAt(l, path) == []
  {
    if |path| > 0 {
      assert Child(l, path[0]) == None;
    }
  }

  lemma SubsAtEmptyNode<S>(n: Node<S>, rest: seq<Key>)
    requires IsEmpty(n)
    ensures NodeSubsAt(n, rest) == []
  {
    if |rest| > 0 {
      SubsAtEmptyLevel(n.next, rest);
    }
  }

  // ---------------------------------------------------------------------
  // Insert

  /** Walk or create one level per key and append the subscription to the
      node the last key leads to. */
  function InsertLevel<S>(l: Level<S>, path: seq<Key>, s: S): (r: Level<S>)
    requires |path| >= 1
    ensures SubsAt(r, path) == SubsAt(l, path) + [s]
    ensures forall k | k != path[0] :: Child(r, k) == Child(l, k)
    decreases |path|
  {
    var n := match Child(l, path[0]) case Some(c) => c case None => NewNode();
    var n' := if |path| == 1 then n.(subs := n.subs + [s])
              else n.(next := InsertLevel(n.next, path[1..], s));
    SetChild(l, path[0], n')
  }

  /** Insert appends the subscription at its own path and changes no other path. */
  lemma {:induction false} SubsAtInsert<S>(l: Level<S>, path: seq<Key>, s: S, q: seq<Key>)
    requires |path| >= 1
    ensures SubsAt(InsertLevel(l, path, s), q) == SubsAt(l, q) + (if q == path then [s] else [])
    decreases |path|
  {
    var l' := InsertLevel(l, path, s);
    if |q| > 0 && q[0] == path[0] {
      var n := match Child(l, path[0]) case Some(c) => c case None => NewNode();
      assert Child(l, path[0]).None? ==> SubsAt(l, q) == [] && NodeSubsAt(n, q[1..]) == [] by {
        if Child(l, path[0]).None? && |q| > 1 {
          SubsAtEmptyLevel(n.next, q[1..]);
        }
      }
      assert SubsAt(l, q) == NodeSubsAt(n, q[1..]);
      if |path| > 1 && |q| > 1 {
        SubsAtInsert(n.next, path[1..], s, q[1..]);
        assert q[1..] == path[1..] <==> q == path by {
          if q[1..] == path[1..] {
            assert q == [q[0]] + q[1..] && path == [path[0]] + path[1..];
          }
        }
      }
      if |path| == 1 && |q| == 1 {
        assert q == path;
      }
    }
  }

  // ---------------------------------------------------------------------
  // Remove

  /** Position of the first occurrence of `s` (the source's removeFromNode scan). */
  function FirstIndex<S(==)>(xs: seq<S>, s: S): (r: Option<nat>)
    ensures r.Some? <==> s in xs
    ensures r.Some? ==> r.value < |xs| && xs[r.value] == s && s !in xs[..r.value]
  {
    if |xs| == 0 then None
    else if xs[0] == s then Some(0)
    else match FirstIndex(xs[1..], s)
      case None => None
      case Some(i) =>
        assert xs[..i + 1] == [xs[0]] + xs[1..][..i];
        Some(i + 1)
  }

  /** Drop the first occurrence of `s`, keeping the order of the rest. */
  function RemoveFirst<S(==)>(xs: seq<S>, s: S): (r: seq<S>)
    ensures s in xs ==> |r| == |xs| - 1 && multiset(r) == multiset(xs) - multiset{s}
    ensures s in xs ==> exists i | 0 <= i < |xs| :: xs[i] == s && s !in xs[..i] && r == xs[..i] + xs[i + 1..]
    ensures s !in xs ==> r == xs
  {
    match FirstIndex(xs, s)
    case None => xs
    case Some(i) =>
      assert xs == xs[..i] + [s] + xs[i + 1..];
      xs[..i] + xs[i + 1..]
  }

  datatype Removal<S> = Removal(level: Level<S>, found: bool)

  /** Re-hang a node after a removal below it, pruning it when it became
      empty: the slot is cleared only for an empty node, and never holds one. */
  function Reattach<S>(l: Level<S>, k: Key, n: Node<S>): (r: Level<S>)
    ensures Child(r, k) == None ==> IsEmpty(n)
    ensures Child(r, k) != None ==> Child(r, k) == Some(n) && !IsEmpty(n)
    ensures forall k' | k' != k :: Child(r, k') == Child(l, k')
  {
    if IsEmpty(n) then PruneNode(l, k) else SetChild(l, k, n)
  }

  /** Walk the path; if the subscription is at the last node, drop its first
      occurrence there and prune every node on the path that became empty,
      deepest first. Otherwise nothing changes. */
  function RemoveLevel<S(==)>(l: Level<S>, path: seq<Key>, s: S): (r: Removal<S>)
    requires |path| >= 1
    ensures r.found <==> s in SubsAt(l, path)
    ensures !r.found ==> r.level == l
    ensures forall k | k != path[0] :: Child(r.level, k) == Child(l, k)
    decreases |path|
  {
    match Child(l, path[0])
    case None => Removal(l, false)
    case Some(n) =>
      if |path| == 1 then
        if s in n.subs then Removal(Reattach(l, path[0], n.(subs := RemoveFirst(n.subs, s))), true)
        else Removal(l, false)
      else
        var r := RemoveLevel(n.next, path[1..], s);
        if r.found then Removal(Reattach(l, path[0], n.(next := r.level)), true)
        else Removal(l, false)
  }

  lemma ReattachChild<S>(l: Level<S>, k: Key, n: Node<S>, rest: seq<Key>)
    ensures match Child(Reattach(l, k, n), k)
            case None => NodeSubsAt(n, rest) == []
            case Some(c) => c == n
    ensures forall k' | k' != k :: Child(Reattach(l, k, n), k') == Child(l, k')
  {
    if IsEmpty(n) {
      SubsAtEmptyNode(n, rest);
    }
  }

  lemma PathSplit(q: seq<Key>, path: seq<Key>)
    requires |q| > 0 && |path| > 0 && q[0] == path[0]
    ensures q[1..] == path[1..] <==> q == path
  {
    if q[1..] == path[1..] {
      assert q == [q[0]] + q[1..] && path == [path[0]] + path[1..];
    }
  }

  /** Remove drops one occurrence at its own path and changes no other path. */
  lemma {:induction false} SubsAtRemove<S>(l: Level<S>, path: seq<Key>, s: S, q: seq<Key>)
    requires |path| >= 1
    ensures SubsAt(RemoveLevel(l, path, s).level, q) ==
            if q == path then RemoveFirst(SubsAt(l, q), s) else SubsAt(l, q)
    decreases |path|
  {
    var r := RemoveLevel(l, path, s);
    if r.found && |q| > 0 {
      var n := Child(l, path[0]).value;
      var n' := if |path| == 1 then n.(subs := RemoveFirst(n.subs, s))
                else n.(next := RemoveLevel(n.next, path[1..], s).level);
      assert r.level == Reattach(l, path[0], n');
      ReattachChild(l, path[0], n', q[1..]);
      if q[0] == path[0] {
        assert SubsAt(r.level, q) == NodeSubsAt(n', q[1..]);
        assert SubsAt(l, q) == NodeSubsAt(n, q[1..]);
        PathSplit(q, path);
        if |path| > 1 && |q| > 1 {
          SubsAtRemove(n.next, path[1..], s, q[1..]);
        }
      }
    }
  }

  // ---------------------------------------------------------------------
  // Match

  /** The recursive descent of the source's matchLevel, in its order: at each
      level the `>` node's subscriptions, then whatever the `*` node's next
      level yields for the remaining tokens, then the literal child; at the
      last token the literal node's and the `*` node's own subscriptions. */
  function MatchLevel<S>(l: Level<S>, tokens: seq<string>): (r: seq<S>)
    ensures NumNodes(l) == 0 ==> r == []
    ensures |tokens| == 0 ==> r == []
    decreases |tokens|
  {
    if |tokens| == 0 then []
    else
      var rest := tokens[1..];
      var fwcSubs := if l.fwc.Some? then l.fwc.value.subs else [];
      var pwcSubs := if l.pwc.Some? then MatchLevel(l.pwc.value.next, rest) else [];
      if |rest| == 0 then
        fwcSubs + pwcSubs
        + (if tokens[0] in l.nodes then l.nodes[tokens[0]].subs else [])
        + (if l.pwc.Some? then l.pwc.value.subs else [])
      else
        fwcSubs + pwcSubs
        + (if tokens[0] in l.nodes then MatchLevel(l.nodes[tokens[0]].next, rest) else [])
  }

  /** Every key path that matches `tokens`, each exactly once. */
  function Candidates(tokens: seq<string>): seq<seq<Key>>
    decreases |tokens|
  {
    if |tokens| == 0 then [[]]
    else
      var below := Candidates(tokens[1..]);
      [[Full]] + Prefixed(Partial, below) + Prefixed(Literal(tokens[0]), below)
  }

  function Prefixed(k: Key, paths: seq<seq<Key>>): (r: seq<seq<Key>>)
    ensures |r| == |paths|
    ensures forall i | 0 <= i < |paths| :: r[i] == [k] + paths[i]
  {
    seq(|paths|, i requires 0 <= i < |paths| => [k] + paths[i])
  }

  predicate Distinct<T(==)>(xs: seq<T>)
  {
    forall i, j | 0 <= i < j < |xs| :: xs[i] != xs[j]
  }

  lemma InPrefixed(k: Key, paths: seq<seq<Key>>, path: seq<Key>)
    ensures path in Prefixed(k, paths) <==> |path| > 0 && path[0] == k && path[1..] in paths
  {
    var r := Prefixed(k, paths);
    if path in r {
      var i :| 0 <= i < |r| && r[i] == path;
      assert path[1..] == paths[i];
    }
    if |path| > 0 && path[0] == k && path[1..] in paths {
      var i :| 0 <= i < |paths| && paths[i] == path[1..];
      assert r[i] == [k] + path[1..] == path;
    }
  }

  lemma CandidatesUnfold(tokens: seq<string>, path: seq<Key>)
    requires |tokens| > 0
    ensures path in Candidates(tokens) <==>
      path == [Full]
      || path in Prefixed(Partial, Candidates(tokens[1..]))
      || path in Prefixed(Literal(tokens[0]), Candidates(tokens[1..]))
  {
  }

  /** The candidates are exactly the key paths that match. */
  lemma {:induction false} CandidatesMatch(tokens: seq<string>, path: seq<Key>)
    ensures path in Candidates(tokens) <==> KeyMatch(path, tokens)
    decreases |tokens|
  {
    if |tokens| > 0 {
      var below := Candidates(tokens[1..]);
      CandidatesUnfold(tokens, path);
      InPrefixed(Partial, below, path);
      InPrefixed(Literal(tokens[0]), below, path);
      if |path| > 0 {
        CandidatesMatch(tokens[1..], path[1..]);
        if path[0] == Full {
          assert path == [Full] <==> |path[1..]| == 0;
        }
      }
    }
  }

  lemma PrefixedDistinct(k: Key, paths: seq<seq<Key>>)
    requires Distinct(paths)
    ensures Distinct(Prefixed(k, paths))
  {
    var r := Prefixed(k, paths);
    forall i, j | 0 <= i < j < |r|
      ensures r[i] != r[j]
    {
      assert r[i][1..] == paths[i] && r[j][1..] == paths[j];
    }
  }

  lemma DistinctConcat<T>(a: seq<T>, b: seq<T>)
    requires Distinct(a) && Distinct(b)
    requires forall i, j | 0 <= i < |a| && 0 <= j < |b| :: a[i] != b[j]
    ensures Distinct(a + b)
  {
    var c := a + b;
    forall i, j | 0 <= i < j < |c|
      ensures c[i] != c[j]
    {
      if j < |a| {
        assert c[i] == a[i] && c[j] == a[j];
      } else if i < |a| {
        assert c[i] == a[i] && c[j] == b[j - |a|];
      } else {
        assert c[i] == b[i - |a|] && c[j] == b[j - |a|];
      }
    }
  }

  /** No key path is listed twice among the candidates. */
  lemma {:induction false} CandidatesDistinct(tokens: seq<string>)
    ensures Distinct(Candidates(tokens))
    decreases |tokens|
  {
    if |tokens| > 0 {
      var below := Candidates(tokens[1..]);
      CandidatesDistinct(tokens[1..]);
      var a := Prefixed(Partial, below);
      var b := Prefixed(Literal(tokens[0]), below);
      PrefixedDistinct(Partial, below);
      PrefixedDistinct(Literal(tokens[0]), below);
      assert forall i | 0 <= i < |a| :: a[i][0] == Partial;
      assert forall j | 0 <= j < |b| :: b[j][0] == Literal(tokens[0]);
      DistinctConcat([[Full]], a);
      DistinctConcat([[Full]] + a, b);
      assert Candidates(tokens) == [[Full]] + a + b;
    }
  }

  lemma CandidatesNonEmpty(tokens: seq<string>)
    requires |tokens| > 0
    ensures forall i | 0 <= i < |Candidates(tokens)| :: |Candidates(tokens)[i]| > 0
  {
    var below := Candidates(tokens[1..]);
    assert Candidates(tokens) == [[Full]] + Prefixed(Partial, below) + Prefixed(Literal(tokens[0]), below);
  }

  /** The subscriptions stored along a list of key paths, with repetitions. */
  ghost function Gather<S>(l: Level<S>, paths: seq<seq<Key>>): multiset<S>
    decreases |paths|
  {
    if |paths| == 0 then multiset{} else multiset(SubsAt(l, paths[0])) + Gather(l, paths[1..])
  }

  ghost function GatherNode<S>(n: Node<S>, paths: seq<seq<Key>>): multiset<S>
    decreases |paths|
  {
    if |paths| == 0 then multiset{} else multiset(NodeSubsAt(n, paths[0])) + GatherNode(n, paths[1..])
  }

  /** A subscription is gathered exactly when it is stored at one of the paths. */
  lemma {:induction false} GatherHas<S>(l: Level<S>, paths: seq<seq<Key>>, s: S)
    ensures s in Gather(l, paths) <==> exists i | 0 <= i < |paths| :: s in SubsAt(l, paths[i])
    decreases |paths|
  {
    if |paths| > 0 {
      GatherHas(l, paths[1..], s);
      if s in Gather(l, paths[1..]) {
        var i :| 0 <= i < |paths[1..]| && s in SubsAt(l, paths[1..][i]);
        assert s in SubsAt(l, paths[i + 1]);
      }
      if exists i | 0 <= i < |paths| :: s in SubsAt(l, paths[i]) {
        var i :| 0 <= i < |paths| && s in SubsAt(l, paths[i]);
        if i > 0 {
          assert paths[1..][i - 1] == paths[i];
        }
      }
    }
  }

  lemma {:induction false} GatherAppend<S>(l: Level<S>, a: seq<seq<Key>>, b: seq<seq<Key>>)
    ensures Gather(l, a + b) == Gather(l, a) + Gather(l, b)
    decreases |a|
  {
    if |a| > 0 {
      GatherAppend(l, a[1..], b);
      assert (a + b)[0] == a[0];
      assert (a + b)[1..] == a[1..] + b;
    } else {
      assert a + b == b;
    }
  }

  lemma {:induction false} GatherPrefixed<S>(l: Level<S>, k: Key, paths: seq<seq<Key>>)
    ensures Gather(l, Prefixed(k, paths)) ==
            match Child(l, k) case None => multiset{} case Some(n) => GatherNode(n, paths)
    decreases |paths|
  {
    if |paths| > 0 {
      GatherPrefixed(l, k, paths[1..]);
      assert Prefixed(k, paths)[1..] == Prefixed(k, paths[1..]);
      assert Prefixed(k, paths)[0][1..] == paths[0];
    }
  }

  lemma {:induction false} GatherNodeNext<S>(n: Node<S>, paths: seq<seq<Key>>)
    requires forall i | 0 <= i < |paths| :: |paths[i]| > 0
    ensures GatherNode(n, paths) == Gather(n.next, paths)
    decreases |paths|
  {
    if |paths| > 0 {
      GatherNodeNext(n, paths[1..]);
    }
  }

  /** What the walk collects below one child for the remaining tokens. */
  function NodeMatch<S>(child: Option<Node<S>>, rest: seq<string>): seq<S>
    decreases |rest|, 3
  {
    match child
    case None => []
    case Some(n) => if |rest| == 0 then n.subs else MatchLevel(n.next, rest)
  }

  /** Up to order, one step of the walk is the `>` node's subscriptions plus
      what the `*` child and the literal child collect. */
  lemma MatchLevelStep<S>(l: Level<S>, tokens: seq<string>)
    requires |tokens| > 0
    ensures multiset(MatchLevel(l, tokens)) ==
            multiset(if l.fwc.Some? then l.fwc.value.subs else [])
            + multiset(NodeMatch(l.pwc, tokens[1..]))
            + multiset(NodeMatch(Child(l, Literal(tokens[0])), tokens[1..]))
  {
  }

  /** What one child contributes to a match of the remaining tokens. */
  lemma {:induction false} GatherNodeMatches<S>(child: Option<Node<S>>, rest: seq<string>)
    ensures (match child case None => multiset{} case Some(n) => GatherNode(n, Candidates(rest)))
            == multiset(NodeMatch(child, rest))
    decreases |rest|, 2
  {
    if child.Some? {
      var n := child.value;
      if |rest| == 0 {
        assert Candidates(rest) == [[]];
      } else {
        CandidatesNonEmpty(rest);
        GatherNodeNext(n, Candidates(rest));
        MatchGathers(n.next, rest);
      }
    }
  }

  /** On a cache miss, the walk returns exactly the subscriptions stored at
      the key paths that match the subject, each path counted once. */
  lemma {:induction false} MatchGathers<S>(l: Level<S>, tokens: seq<string>)
    ensures multiset(MatchLevel(l, tokens)) == Gather(l, Candidates(tokens))
    decreases |tokens|, 1
  {
    if |tokens| > 0 {
      var rest := tokens[1..];
      var below := Candidates(rest);
      var a := Prefixed(Partial, below);
      var b := Prefixed(Literal(tokens[0]), below);
      assert Candidates(tokens) == [[Full]] + a + b;
      GatherAppend(l, [[Full]] + a, b);
      GatherAppend(l, [[Full]], a);
      assert Gather(l, [[Full]]) == multiset(if l.fwc.Some? then l.fwc.value.subs else []);
      GatherPrefixed(l, Partial, below);
      GatherPrefixed(l, Literal(tokens[0]), below);
      GatherNodeMatches(l.pwc, rest);
      GatherNodeMatches(Child(l, Literal(tokens[0])), rest);
      MatchLevelStep(l, tokens);
    }
  }

  /** Changing what is stored at one path changes a gather over distinct paths
      only by that path's contribution. */
  lemma {:induction false} GatherChangedAt<S>(l: Level<S>, l': Level<S>, at: seq<Key>, paths: seq<seq<Key>>)
    requires forall q | q != at :: SubsAt(l', q) == SubsAt(l, q)
    requires Distinct(paths)
    ensures at in paths ==> Gather(l', paths) + multiset(SubsAt(l, at)) == Gather(l, paths) + multiset(SubsAt(l', at))
    ensures at !in paths ==> Gather(l', paths) == Gather(l, paths)
    decreases |paths|
  {
    if |paths| > 0 {
      assert Distinct(paths[1..]);
      var head := paths[0];
      var rest := paths[1..];
      GatherChangedAt(l, l', at, rest);
      assert Gather(l', paths) == multiset(SubsAt(l', head)) + Gather(l', rest);
      assert Gather(l, paths) == multiset(SubsAt(l, head)) + Gather(l, rest);
      if head == at {
        forall j | 0 <= j < |rest|
          ensures rest[j] != at
        {
          assert rest[j] == paths[j + 1];
        }
      } else {
        assert SubsAt(l', head) == SubsAt(l, head);
        assert at in paths <==> at in rest by {
          assert paths == [head] + rest;
        }
        if at in rest {
          var h := multiset(SubsAt(l, head));
          calc {
            Gather(l', paths) + multiset(SubsAt(l, at));
            h + Gather(l', rest) + multiset(SubsAt(l, at));
            h + (Gather(l', rest) + multiset(SubsAt(l, at)));
            h + (Gather(l, rest) + multiset(SubsAt(l', at)));
            Gather(l, paths) + multiset(SubsAt(l', at));
          }
        }
      }
    }
  }

  lemma MultisetCancel<T>(a: multiset<T>, b: multiset<T>, c: multiset<T>)
    requires a + c == b + c
    ensures a == b
  {
    forall x
      ensures a[x] == b[x]
    {
      assert (a + c)[x] == (b + c)[x];
    }
  }

  /** Taking one `s` out of a part taken out of a whole. */
  lemma RemoveCancel<T>(before: multiset<T>, after: multiset<T>, m: multiset<T>, s: T)
    requires s in m
    requires after + m == before + (m - multiset{s})
    ensures after == before - multiset{s}
  {
    var m' := m - multiset{s};
    assert m == m' + multiset{s};
    assert (after + multiset{s}) + m' == before + m';
    MultisetCancel(after + multiset{s}, before, m');
  }

  lemma InsertOnlyAt<S>(l: Level<S>, path: seq<Key>, s: S)
    requires |path| >= 1
    ensures forall q | q != path :: SubsAt(InsertLevel(l, path, s), q) == SubsAt(l, q)
    ensures SubsAt(InsertLevel(l, path, s), path) == SubsAt(l, path) + [s]
  {
    forall q | q != path
      ensures SubsAt(InsertLevel(l, path, s), q) == SubsAt(l, q)
    {
      SubsAtInsert(l, path, s, q);
    }
    SubsAtInsert(l, path, s, path);
  }

  lemma RemoveOnlyAt<S>(l: Level<S>, path: seq<Key>, s: S)
    requires |path| >= 1
    ensures forall q | q != path :: SubsAt(RemoveLevel(l, path, s).level, q) == SubsAt(l, q)
    ensures SubsAt(RemoveLevel(l, path, s).level, path) == RemoveFirst(SubsAt(l, path), s)
  {
    forall q | q != path
      ensures SubsAt(RemoveLevel(l, path, s).level, q) == SubsAt(l, q)
    {
      SubsAtRemove(l, path, s, q);
    }
    SubsAtRemove(l, path, s, path);
  }

  /** Matching after an insert: the new subscription is added exactly when
      its pattern matches the subject. */
  lemma MatchAfterInsert<S>(l: Level<S>, path: seq<Key>, s: S, tokens: seq<string>)
    requires |path| >= 1
    ensures multiset(MatchLevel(InsertLevel(l, path, s), tokens)) ==
            multiset(MatchLevel(l, tokens)) + (if KeyMatch(path, tokens) then multiset{s} else multiset{})
  {
    var l' := InsertLevel(l, path, s);
    var c := Candidates(tokens);
    InsertOnlyAt(l, path, s);
    CandidatesDistinct(tokens);
    CandidatesMatch(tokens, path);
    GatherChangedAt(l, l', path, c);
    MatchGathers(l, tokens);
    MatchGathers(l', tokens);
    if KeyMatch(path, tokens) {
      var m := multiset(SubsAt(l, path));
      assert multiset(SubsAt(l', path)) == m + multiset{s};
      assert Gather(l', c) + m == (Gather(l, c) + multiset{s}) + m;
      MultisetCancel(Gather(l', c), Gather(l, c) + multiset{s}, m);
    }
  }

  /** Matching after a remove: one occurrence of the subscription disappears
      exactly when it was found and its pattern matches the subject. */
  lemma MatchAfterRemove<S>(l: Level<S>, path: seq<Key>, s: S, tokens: seq<string>)
    requires |path| >= 1
    ensures var r := RemoveLevel(l, path, s);
            multiset(MatchLevel(r.level, tokens)) ==
            multiset(MatchLevel(l, tokens)) - (if r.found && KeyMatch(path, tokens) then multiset{s} else multiset{})
  {
    var r := RemoveLevel(l, path, s);
    var c := Candidates(tokens);
    RemoveOnlyAt(l, path, s);
    CandidatesDistinct(tokens);
    CandidatesMatch(tokens, path);
    GatherChangedAt(l, r.level, path, c);
    MatchGathers(l, tokens);
    MatchGathers(r.level, tokens);
    if r.found && KeyMatch(path, tokens) {
      RemoveCancel(Gather(l, c), Gather(r.level, c), multiset(SubsAt(l, path)), s);
    }
  }
}
