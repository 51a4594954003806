/** Counting, pruning and depth of the subscription trie. */
module TrieShape {
  import opened Trie

  // ---------------------------------------------------------------------
  // Sums over maps

  ghost function Pick(keys: set<string>): (k: string)
    requires keys != {}
    ensures k in keys
  {
    var k :| k in keys; k
  }

  ghost function SumValues(m: map<string, nat>): nat
    decreases |m|
  {
    if |m| == 0 then 0
    else
      var k := Pick(m.Keys);
      MapRemoveSize(m, k);
      m[k] + SumValues(m - {k})
  }

  lemma MapRemoveSize<V>(m: map<string, V>, k: string)
    requires k in m
    ensures |m - {k}| == |m| - 1
  {
    assert (m - {k}).Keys == m.Keys - {k};
  }

  /** The sum does not depend on which key is taken first. */
  lemma {:induction false} SumValuesRemove(m: map<string, nat>, k: string)
    requires k in m
    ensures SumValues(m) == m[k] + SumValues(m - {k})
    decreases |m|
  {
    var j := Pick(m.Keys);
    assert SumValues(m) == m[j] + SumValues(m - {j});
    if j != k {
      MapRemoveSize(m, j);
      MapRemoveSize(m, k);
      SumValuesRemove(m - {j}, k);
      SumValuesRemove(m - {k}, j);
      assert m - {j} - {k} == m - {k} - {j};
    }
  }

  lemma SumValuesUpdate(m: map<string, nat>, k: string, v: nat)
    ensures SumValues(m[k := v]) + (if k in m then m[k] else 0) == SumValues(m) + v
  {
    SumValuesRemove(m[k := v], k);
    assert m[k := v] - {k} == m - {k};
    if k in m {
      SumValuesRemove(m, k);
    } else {
      assert m - {k} == m;
    }
  }

  // ---------------------------------------------------------------------
  // Number of stored subscriptions

  /** Every subscription stored anywhere below a node, with repetitions. */
  ghost function NodeTotal<S>(n: Node<S>): nat
    decreases n
  {
    |n.subs| + LevelTotal(n.next)
  }

  ghost function LevelTotal<S>(l: Level<S>): nat
    decreases l
  {
    SumValues(map t | t in l.nodes :: NodeTotal(l.nodes[t])) + OptionTotal(l.pwc) + OptionTotal(l.fwc)
  }

  ghost function OptionTotal<S>(o: Option<Node<S>>): nat
    decreases o
  {
    match o
    case None => 0
    case Some(n) => NodeTotal(n)
  }

  lemma EmptyLevelTotal<S>(l: Level<S>)
    requires NumNodes(l) == 0
    ensures LevelTotal(l) == 0
  {
    assert (map t | t in l.nodes :: NodeTotal(l.nodes[t])) == map[];
  }

  lemma EmptyNodeTotal<S>(n: Node<S>)
    requires IsEmpty(n)
    ensures NodeTotal(n) == 0
  {
    EmptyLevelTotal(n.next);
  }

  lemma SetChildTotal<S>(l: Level<S>, k: Key, n: Node<S>)
    ensures LevelTotal(SetChild(l, k, n)) + OptionTotal(Child(l, k)) == LevelTotal(l) + NodeTotal(n)
  {
    if k.Literal? {
      var t := k.token;
      var w := map x | x in l.nodes :: NodeTotal(l.nodes[x]);
      var nodes' := l.nodes[t := n];
      var w' := map x | x in nodes' :: NodeTotal(nodes'[x]);
      assert w' == w[t := NodeTotal(n)];
      SumValuesUpdate(w, t, NodeTotal(n));
    }
  }

  lemma PruneTotal<S>(l: Level<S>, k: Key)
    ensures LevelTotal(PruneNode(l, k)) + OptionTotal(Child(l, k)) == LevelTotal(l)
  {
    if k.Literal? && k.token in l.nodes {
      var t := k.token;
      var w := map x | x in l.nodes :: NodeTotal(l.nodes[x]);
      var nodes' := l.nodes - {t};
      var w' := map x | x in nodes' :: NodeTotal(nodes'[x]);
      assert w' == w - {t};
      SumValuesRemove(w, t);
    } else if k.Literal? {
      assert l.nodes - {k.token} == l.nodes;
    }
  }

  lemma ReattachTotal<S>(l: Level<S>, k: Key, n: Node<S>)
    ensures LevelTotal(Reattach(l, k, n)) + OptionTotal(Child(l, k)) == LevelTotal(l) + NodeTotal(n)
  {
    if IsEmpty(n) {
      PruneTotal(l, k);
      EmptyNodeTotal(n);
    } else {
      SetChildTotal(l, k, n);
    }
  }

  /** Insert stores exactly one more subscription. */
  lemma {:induction false} TotalInsert<S>(l: Level<S>, path: seq<Key>, s: S)
    requires |path| >= 1
    ensures LevelTotal(InsertLevel(l, path, s)) == LevelTotal(l) + 1
    decreases |path|
  {
    var n := match Child(l, path[0]) case Some(c) => c case None => NewNode();
    var n' := if |path| == 1 then n.(subs := n.subs + [s])
              else n.(next := InsertLevel(n.next, path[1..], s));
    SetChildTotal(l, path[0], n');
    if Child(l, path[0]).None? {
      EmptyLevelTotal<S>(EmptyLevel());
    }
    if |path| > 1 {
      TotalInsert(n.next, path[1..], s);
    }
  }

  /** Remove stores exactly one fewer subscription when it finds it, and
      the same number otherwise. */
  lemma {:induction false} TotalRemove<S>(l: Level<S>, path: seq<Key>, s: S)
    requires |path| >= 1
    ensures LevelTotal(RemoveLevel(l, path, s).level) + (if RemoveLevel(l, path, s).found then 1 else 0)
            == LevelTotal(l)
    decreases |path|
  {
    match Child(l, path[0])
    case None =>
    case Some(n) =>
      if |path| == 1 {
        if s in n.subs {
          ReattachTotal(l, path[0], n.(subs := RemoveFirst(n.subs, s)));
        }
      } else {
        var r := RemoveLevel(n.next, path[1..], s);
        TotalRemove(n.next, path[1..], s);
        if r.found {
          ReattachTotal(l, path[0], n.(next := r.level));
        }
      }
  }

  // ---------------------------------------------------------------------
  // Pruning

  /** No empty node survives anywhere in the trie. */
  ghost predicate Pruned<S>(l: Level<S>)
    decreases l
  {
    && (forall t | t in l.nodes :: NodePruned(l.nodes[t]))
    && (l.pwc.Some? ==> NodePruned(l.pwc.value))
    && (l.fwc.Some? ==> NodePruned(l.fwc.value))
  }

  ghost predicate NodePruned<S>(n: Node<S>)
    decreases n
  {
    !IsEmpty(n) && Pruned(n.next)
  }

  lemma PrunedChild<S>(l: Level<S>, k: Key)
    requires Pruned(l) && Child(l, k).Some?
    ensures NodePruned(Child(l, k).value)
  {
  }

  lemma SetChildPruned<S>(l: Level<S>, k: Key, n: Node<S>)
    requires Pruned(l) && NodePruned(n)
    ensures Pruned(SetChild(l, k, n))
  {
  }

  lemma PruneNodePruned<S>(l: Level<S>, k: Key)
    requires Pruned(l)
    ensures Pruned(PruneNode(l, k))
  {
  }

  lemma SetChildNumNodes<S>(l: Level<S>, k: Key, n: Node<S>)
    ensures NumNodes(SetChild(l, k, n)) > 0
  {
    if k.Literal? {
      assert k.token in SetChild(l, k, n).nodes;
    }
  }

  lemma InsertNumNodes<S>(l: Level<S>, path: seq<Key>, s: S)
    requires |path| >= 1
    ensures NumNodes(InsertLevel(l, path, s)) > 0
  {
    var n := match Child(l, path[0]) case Some(c) => c case None => NewNode();
    var n' := if |path| == 1 then n.(subs := n.subs + [s])
              else n.(next := InsertLevel(n.next, path[1..], s));
    SetChildNumNodes(l, path[0], n');
  }

  /** Insert keeps the trie free of empty nodes. */
  lemma {:induction false} InsertPruned<S>(l: Level<S>, path: seq<Key>, s: S)
    requires |path| >= 1
    requires Pruned(l)
    ensures Pruned(InsertLevel(l, path, s))
    decreases |path|
  {
    var n := match Child(l, path[0]) case Some(c) => c case None => NewNode();
    if Child(l, path[0]).Some? {
      PrunedChild(l, path[0]);
    }
    assert Pruned(n.next);
    var n' := if |path| == 1 then n.(subs := n.subs + [s])
              else n.(next := InsertLevel(n.next, path[1..], s));
    if |path| > 1 {
      InsertPruned(n.next, path[1..], s);
      InsertNumNodes(n.next, path[1..], s);
    }
    assert NodePruned(n');
    SetChildPruned(l, path[0], n');
  }

  /** Remove keeps the trie free of empty nodes: every node on the path that
      it empties is pruned, deepest first. */
  lemma {:induction false} RemovePruned<S>(l: Level<S>, path: seq<Key>, s: S)
    requires |path| >= 1
    requires Pruned(l)
    ensures Pruned(RemoveLevel(l, path, s).level)
    decreases |path|
  {
    match Child(l, path[0])
    case None =>
    case Some(n) =>
      PrunedChild(l, path[0]);
      var n' := if |path| == 1 then n.(subs := RemoveFirst(n.subs, s))
                else n.(next := RemoveLevel(n.next, path[1..], s).level);
      if |path| > 1 {
        RemovePruned(n.next, path[1..], s);
      }
      if IsEmpty(n') {
        PruneNodePruned(l, path[0]);
      } else {
        SetChildPruned(l, path[0], n');
      }
  }

  lemma {:induction false} NodeTotalPositive<S>(n: Node<S>)
    requires NodePruned(n)
    ensures NodeTotal(n) >= 1
    decreases n, 1
  {
    if |n.subs| == 0 {
      LevelTotalPositive(n.next);
    }
  }

  /** In a pruned trie every node stores at least one subscription below it. */
  lemma {:induction false} LevelTotalPositive<S>(l: Level<S>)
    requires Pruned(l) && NumNodes(l) > 0
    ensures LevelTotal(l) >= 1
    decreases l, 0
  {
    if l.pwc.Some? {
      NodeTotalPositive(l.pwc.value);
    } else if l.fwc.Some? {
      NodeTotalPositive(l.fwc.value);
    } else {
      assert |l.nodes| > 0;
      var t :| t in l.nodes;
      NodeTotalPositive(l.nodes[t]);
      SumValuesRemove(map x | x in l.nodes :: NodeTotal(l.nodes[x]), t);
    }
  }

  // ---------------------------------------------------------------------
  // Depth

  ghost function LargestOf(s: set<nat>): (m: nat)
    requires s != {}
    ensures m in s && forall x | x in s :: x <= m
    decreases |s|
  {
    var y :| y in s;
    if s == {y} then y
    else
      var rest := LargestOf(s - {y});
      assert forall x | x in s :: x == y || x in s - {y};
      if y > rest then y else rest
  }

  /** The largest element of a finite set of naturals, 0 for the empty set. */
  function MaxOf(s: set<nat>): (m: nat)
    ensures forall x | x in s :: x <= m
    ensures s != {} ==> m in s
    ensures s == {} ==> m == 0
  {
    if s == {} then 0
    else
      var _ := LargestOf(s);
      var m :| m in s && forall x | x in s :: x <= m;
      m
  }

  lemma MaxOfPair(a: nat, b: nat)
    requires a <= b
    ensures MaxOf({a, b}) == b
  {
  }

  /** The source's visitLevel: the depth of the deepest node below `l`,
      counting from `depth`. */
  function VisitLevel<S>(l: Level<S>, depth: nat): (r: nat)
    ensures r >= depth
    decreases l, 1
  {
    if NumNodes(l) == 0 then depth
    else MaxOf({depth + 1} + ChildDepths(l, depth + 1))
  }

  /** The depths reached below each child of `l`, that child's level counted as `d`. */
  function ChildDepths<S>(l: Level<S>, d: nat): set<nat>
    decreases l, 0
  {
    var fromNodes := set t | t in l.nodes :: VisitLevel(l.nodes[t].next, d);
    var fromPwc := if l.pwc.Some? then {VisitLevel(l.pwc.value.next, d)} else {};
    var fromFwc := if l.fwc.Some? then {VisitLevel(l.fwc.value.next, d)} else {};
    fromNodes + fromPwc + fromFwc
  }

  lemma VisitEmpty<S>(l: Level<S>, depth: nat)
    requires NumNodes(l) == 0
    ensures VisitLevel(l, depth) == depth
  {
  }

  lemma ChildDepthsSingleLiteral<S>(t: string, n: Node<S>, d: nat)
    ensures ChildDepths(Level(map[t := n], None, None), d) == {VisitLevel(n.next, d)}
  {
    var l: Level<S> := Level(map[t := n], None, None);
    assert t in l.nodes;
    assert (set x | x in l.nodes :: VisitLevel(l.nodes[x].next, d)) == {VisitLevel(n.next, d)};
  }

  lemma ChildDepthsSingleWildcard<S>(l: Level<S>, n: Node<S>, d: nat)
    requires l == Level(map[], Some(n), None) || l == Level(map[], None, Some(n))
    ensures ChildDepths(l, d) == {VisitLevel(n.next, d)}
  {
    assert l.nodes == map[];
  }

  lemma VisitOneChild<S>(l: Level<S>, depth: nat, below: nat)
    requires NumNodes(l) > 0 && ChildDepths(l, depth + 1) == {below} && below >= depth + 1
    ensures VisitLevel(l, depth) == below
  {
    assert {depth + 1} + {below} == {depth + 1, below};
    MaxOfPair(depth + 1, below);
  }

  /** A level with a single child is one deeper than that child's level. */
  lemma VisitSingle<S>(k: Key, n: Node<S>, depth: nat)
    ensures VisitLevel(SetChild(EmptyLevel(), k, n), depth) == VisitLevel(n.next, depth + 1)
  {
    var l := SetChild(EmptyLevel<S>(), k, n);
    if k.Literal? {
      assert l == Level(map[k.token := n], None, None);
      ChildDepthsSingleLiteral(k.token, n, depth + 1);
    } else {
      ChildDepthsSingleWildcard(l, n, depth + 1);
    }
    SetChildNumNodes(EmptyLevel<S>(), k, n);
    VisitOneChild(l, depth, VisitLevel(n.next, depth + 1));
  }

  /** A trie holding a single pattern is a chain as deep as the pattern is long. */
  lemma {:induction false} VisitChain<S>(path: seq<Key>, s: S, depth: nat)
    requires |path| >= 1
    ensures VisitLevel(InsertLevel(EmptyLevel(), path, s), depth) == depth + |path|
    decreases |path|
  {
    var n' := if |path| == 1 then NewNode<S>().(subs := [s])
              else NewNode<S>().(next := InsertLevel(EmptyLevel(), path[1..], s));
    assert Child(EmptyLevel<S>(), path[0]) == None;
    assert NewNode<S>().subs + [s] == [s];
    assert InsertLevel(EmptyLevel<S>(), path, s) == SetChild(EmptyLevel(), path[0], n');
    VisitSingle(path[0], n', depth);
    if |path| > 1 {
      VisitChain(path[1..], s, depth + 1);
    }
  }

  /** The key path leads from `l` to a node of the trie. */
  ghost predicate HasNode<S>(l: Level<S>, path: seq<Key>)
    decreases |path|
  {
    && |path| >= 1
    && Child(l, path[0]).Some?
    && (|path| == 1 || HasNode(Child(l, path[0]).value.next, path[1..]))
  }

  lemma ChildDepthOf<S>(l: Level<S>, k: Key, d: nat)
    requires Child(l, k).Some?
    ensures VisitLevel(Child(l, k).value.next, d) in ChildDepths(l, d)
  {
    if k.Literal? {
      assert k.token in l.nodes;
    }
  }

  lemma ChildDepthFrom<S>(l: Level<S>, d: nat, x: nat) returns (k: Key)
    requires x in ChildDepths(l, d)
    ensures Child(l, k).Some? && x == VisitLevel(Child(l, k).value.next, d)
  {
    if l.pwc.Some? && x == VisitLevel(l.pwc.value.next, d) {
      k := Partial;
    } else if l.fwc.Some? && x == VisitLevel(l.fwc.value.next, d) {
      k := Full;
    } else {
      var t :| t in l.nodes && x == VisitLevel(l.nodes[t].next, d);
      k := Literal(t);
    }
  }

  /** Every node of the trie lies no deeper than the depth reported. */
  lemma {:induction false} VisitCovers<S>(l: Level<S>, path: seq<Key>, depth: nat)
    requires HasNode(l, path)
    ensures VisitLevel(l, depth) >= depth + |path|
    decreases |path|
  {
    var n := Child(l, path[0]).value;
    assert NumNodes(l) > 0;
    ChildDepthOf(l, path[0], depth + 1);
    if |path| > 1 {
      VisitCovers(n.next, path[1..], depth + 1);
    }
  }

  /** Below a level with a child, the depth is one more than the level's, or
      it is reached below one of the children. */
  lemma VisitStep<S>(l: Level<S>, depth: nat)
    requires NumNodes(l) > 0
    ensures VisitLevel(l, depth) == depth + 1 || VisitLevel(l, depth) in ChildDepths(l, depth + 1)
  {
  }

  /** A depth beyond the starting one needs a child. */
  lemma VisitBelowNodes<S>(l: Level<S>, depth: nat)
    ensures VisitLevel(l, depth) > depth <==> NumNodes(l) > 0
  {
  }

  /** A child's level is counted one deeper and reaches no further than its parent. */
  lemma VisitChildBound<S>(l: Level<S>, k: Key, depth: nat)
    requires Child(l, k).Some?
    ensures VisitLevel(Child(l, k).value.next, depth + 1) <= VisitLevel(l, depth)
  {
    assert NumNodes(l) > 0;
    ChildDepthOf(l, k, depth + 1);
  }

  lemma SomeChild<S>(l: Level<S>) returns (k: Key)
    requires NumNodes(l) > 0
    ensures Child(l, k).Some?
  {
    if l.pwc.Some? {
      k := Partial;
    } else if l.fwc.Some? {
      k := Full;
    } else {
      var t :| t in l.nodes;
      k := Literal(t);
    }
  }

  /** A key to a child followed by a path from that child's level, which
      is empty or leads to a node. */
  lemma ExtendPath<S>(l: Level<S>, k: Key, rest: seq<Key>) returns (path: seq<Key>)
    requires Child(l, k).Some?
    requires rest == [] || HasNode(Child(l, k).value.next, rest)
    ensures path == [k] + rest && HasNode(l, path)
  {
    path := [k] + rest;
    assert path[0] == k;
    assert path[1..] == rest;
  }

  /** Some node of a non-empty trie lies exactly at the depth reported. */
  lemma {:induction false} VisitAttained<S>(l: Level<S>, depth: nat) returns (path: seq<Key>)
    requires NumNodes(l) > 0
    ensures HasNode(l, path) && VisitLevel(l, depth) == depth + |path|
    decreases VisitLevel(l, depth) - depth
  {
    var m := VisitLevel(l, depth);
    VisitStep(l, depth);
    if m == depth + 1 {
      var k := SomeChild(l);
      path := ExtendPath(l, k, []);
    } else {
      var k := ChildDepthFrom(l, depth + 1, m);
      var n := Child(l, k).value;
      VisitBelowNodes(n.next, depth + 1);
      var rest := VisitAttained(n.next, depth + 1);
      path := ExtendPath(l, k, rest);
    }
  }

  /** A path with something stored at it leads to a node. */
  lemma {:induction false} StoredHasNode<S>(l: Level<S>, path: seq<Key>)
    requires SubsAt(l, path) != []
    ensures HasNode(l, path)
    decreases |path|
  {
    var n := Child(l, path[0]).value;
    if |path| > 1 {
      StoredHasNode(n.next, path[1..]);
    }
  }

  /** In a trie without empty nodes, a node at the deepest depth stores
      something, since it has no child to keep it alive. */
  lemma {:induction false} DeepestStores<S>(l: Level<S>, path: seq<Key>, depth: nat)
    requires Pruned(l) && HasNode(l, path) && VisitLevel(l, depth) == depth + |path|
    ensures SubsAt(l, path) != []
    decreases |path|
  {
    var n := Child(l, path[0]).value;
    PrunedChild(l, path[0]);
    VisitChildBound(l, path[0], depth);
    if |path| == 1 {
      VisitBelowNodes(n.next, depth + 1);
    } else {
      VisitCovers(n.next, path[1..], depth + 1);
      DeepestStores(n.next, path[1..], depth + 1);
    }
  }

  /** The depth is the length of the longest path to a node: every stored
      path is at most that long, and in a trie without empty nodes some
      stored path is exactly that long. */
  lemma VisitDeepest<S>(l: Level<S>, depth: nat)
    ensures forall path | HasNode(l, path) :: VisitLevel(l, depth) >= depth + |path|
    ensures forall path | SubsAt(l, path) != [] :: VisitLevel(l, depth) >= depth + |path|
    ensures NumNodes(l) > 0 ==> exists path :: HasNode(l, path) && VisitLevel(l, depth) == depth + |path|
    ensures Pruned(l) && NumNodes(l) > 0 ==>
              exists path :: SubsAt(l, path) != [] && VisitLevel(l, depth) == depth + |path|
  {
    forall path | HasNode(l, path) ensures VisitLevel(l, depth) >= depth + |path| {
      VisitCovers(l, path, depth);
    }
    forall path | SubsAt(l, path) != [] ensures VisitLevel(l, depth) >= depth + |path| {
      StoredHasNode(l, path);
      VisitCovers(l, path, depth);
    }
    if NumNodes(l) > 0 {
      var path := VisitAttained(l, depth);
      if Pruned(l) {
        DeepestStores(l, path, depth);
      }
    }
  }
}
