/** Un-flattening dotted configuration keys into nested maps that are built in place. */
module Unflatten {
  import opened Wrappers

  type Path = seq<string>

  // ----- keys and paths ---------------------------------------------------------------------------

  /** strings.Split with a one-character separator. */
  function Split(s: string, delim: char): (r: Path)
    ensures |r| > 0
  {
    if s == [] then [""]
    else
      var rest := Split(s[1..], delim);
      if s[0] == delim then [""] + rest else [[s[0]] + rest[0]] + rest[1..]
  }

  function Join(p: Path, delim: char): string
    requires |p| > 0
  {
    if |p| == 1 then p[0] else p[0] + [delim] + Join(p[1..], delim)
  }

  /** Splitting loses nothing. */
  lemma {:induction false} JoinSplit(s: string, delim: char)
    ensures Join(Split(s, delim), delim) == s
  {
    if s != [] {
      JoinSplit(s[1..], delim);
      var rest := Split(s[1..], delim);
      if s[0] == delim {
        assert Split(s, delim)[1..] == rest;
      } else {
        assert Split(s, delim)[1..] == rest[1..];
      }
    }
  }

  /** So keys that are split have the same path only if they are the same. */
  lemma SplitInjective(s: string, t: string, delim: char)
    ensures Split(s, delim) == Split(t, delim) <==> s == t
  {
    JoinSplit(s, delim);
    JoinSplit(t, delim);
  }

  /** No part holds the separator. */
  ghost predicate PartsPlain(p: Path, delim: char) {
    forall i :: 0 <= i < |p| ==> delim !in p[i]
  }

  /** Splitting separates at every separator. */
  lemma {:induction false} SplitPlain(s: string, delim: char)
    ensures PartsPlain(Split(s, delim), delim)
  {
    if s != [] {
      SplitPlain(s[1..], delim);
    }
  }

  lemma {:induction false} SplitHead(x: string, rest: string, delim: char)
    requires delim !in x
    ensures Split(x + [delim] + rest, delim) == [x] + Split(rest, delim)
  {
    var s := x + [delim] + rest;
    if x == [] {
      assert s[1..] == rest;
    } else {
      SplitHead(x[1..], rest, delim);
      assert s[1..] == x[1..] + [delim] + rest;
      assert [x[0]] + x[1..] == x;
    }
  }

  lemma {:induction false} SplitWhole(x: string, delim: char)
    requires delim !in x
    ensures Split(x, delim) == [x]
  {
    if x != [] {
      SplitWhole(x[1..], delim);
      assert [x[0]] + x[1..] == x;
    }
  }

  /** Parts without the separator, joined, split into themselves. */
  lemma {:induction false} SplitJoin(p: Path, delim: char)
    requires |p| > 0 && PartsPlain(p, delim)
    ensures Split(Join(p, delim), delim) == p
  {
    if |p| == 1 {
      SplitWhole(p[0], delim);
    } else {
      SplitJoin(p[1..], delim);
      SplitHead(p[0], Join(p[1..], delim), delim);
      assert p == [p[0]] + p[1..];
    }
  }

  /** So the split of a key is the one list of parts without the separator that joins to the key. */
  lemma SplitIsOnly(s: string, p: Path, delim: char)
    ensures p == Split(s, delim) <==> |p| > 0 && PartsPlain(p, delim) && Join(p, delim) == s
  {
    JoinSplit(s, delim);
    SplitPlain(s, delim);
    if |p| > 0 && PartsPlain(p, delim) {
      SplitJoin(p, delim);
    }
  }

  type KeyMap = map<string, Path>

  function PathOf(km: KeyMap, delim: char, key: string): Path {
    if key in km then km[key] else Split(key, delim)
  }

  /** A key in the key map takes its path from there; any other key takes its parts. */
  lemma PathOfIs(km: KeyMap, delim: char, key: string, p: Path)
    ensures p == PathOf(km, delim, key) <==>
            if key in km then p == km[key] else |p| > 0 && PartsPlain(p, delim) && Join(p, delim) == key
  {
    SplitIsOnly(key, p, delim);
  }

  predicate PathsNonEmpty<V>(flat: map<string, V>, km: KeyMap, delim: char) {
    forall k :: k in flat ==> |PathOf(km, delim, k)| > 0
  }

  /** One path runs through the other. */
  predicate Nested(p: Path, q: Path) { p <= q || q <= p }

  /** No path runs through another, and keys with the same path have the same value. */
  ghost predicate Compatible<V>(flat: map<string, V>, km: KeyMap, delim: char) {
    forall a, b :: a in flat && b in flat && PathOf(km, delim, a) <= PathOf(km, delim, b) ==>
      PathOf(km, delim, a) == PathOf(km, delim, b) && flat[a] == flat[b]
  }

  // ----- what an iteration order leads to ---------------------------------------------------------

  /** An order in which a loop over the map may take its keys. */
  ghost predicate IsOrder<V>(order: seq<string>, flat: map<string, V>) {
    && (forall k :: k in order <==> k in flat)
    && (forall i, j :: 0 <= i < j < |order| ==> order[i] != order[j])
  }

  /** The values at their paths after one more is put in: it displaces every value its path runs through and every
      value whose path runs through it. */
  function PutAt<V>(leaves: map<Path, V>, p: Path, v: V): map<Path, V> {
    (map q | q in leaves && !Nested(q, p) :: leaves[q])[p := v]
  }

  /** The values at their paths once the keys have been taken in the given order. */
  ghost function Outcome<V>(order: seq<string>, flat: map<string, V>, km: KeyMap, delim: char): map<Path, V>
    requires forall k :: k in order ==> k in flat
  {
    if order == [] then map[]
    else
      var k := order[|order| - 1];
      PutAt(Outcome(order[..|order| - 1], flat, km, delim), PathOf(km, delim, k), flat[k])
  }

  lemma OutcomeStep<V>(order: seq<string>, i: nat, flat: map<string, V>, km: KeyMap, delim: char)
    requires (forall k :: k in order ==> k in flat) && i < |order|
    ensures order[i] in flat
    ensures Outcome(order[..i + 1], flat, km, delim) == PutAt(Outcome(order[..i], flat, km, delim), PathOf(km, delim, order[i]), flat[order[i]])
  {
    assert order[i] in order && order[..i + 1][..i] == order[..i];
  }

  /** Key `i` of the order keeps its place: no later path runs through its own or is run through by it. */
  ghost predicate Survives(order: seq<string>, km: KeyMap, delim: char, i: int)
    requires 0 <= i < |order|
  {
    forall j :: i < j < |order| ==> !Nested(PathOf(km, delim, order[i]), PathOf(km, delim, order[j]))
  }

  lemma SurvivesAppend(order: seq<string>, k: string, km: KeyMap, delim: char, i: int)
    requires 0 <= i <= |order|
    ensures Survives(order + [k], km, delim, i) <==>
            i == |order| || (Survives(order, km, delim, i) && !Nested(PathOf(km, delim, order[i]), PathOf(km, delim, k)))
  {
    var whole := order + [k];
    assert forall j :: 0 <= j < |order| ==> whole[j] == order[j];
    assert whole[|order|] == k;
  }

  /** `v` is at path `p` because of key `i`. */
  ghost predicate PutBy<V>(order: seq<string>, flat: map<string, V>, km: KeyMap, delim: char, p: Path, v: V, i: int)
    requires forall k :: k in order ==> k in flat
  {
    0 <= i < |order| && PathOf(km, delim, order[i]) == p && flat[order[i]] == v && Survives(order, km, delim, i)
  }

  /** Exactly which values an order leaves: those of the keys that keep their place, compatible or not. */
  lemma {:induction false} OutcomeIsSurvivors<V>(order: seq<string>, flat: map<string, V>, km: KeyMap, delim: char, p: Path, v: V)
    requires forall k :: k in order ==> k in flat
    ensures p in Outcome(order, flat, km, delim) && Outcome(order, flat, km, delim)[p] == v <==>
            exists i :: PutBy(order, flat, km, delim, p, v, i)
  {
    if order != [] {
      var front, k := order[..|order| - 1], order[|order| - 1];
      assert order == front + [k];
      OutcomeIsSurvivors(front, flat, km, delim, p, v);
      forall i | 0 <= i < |order|
        ensures PutBy(order, flat, km, delim, p, v, i) <==>
                if i == |front| then PathOf(km, delim, k) == p && flat[k] == v
                else PutBy(front, flat, km, delim, p, v, i) && !Nested(p, PathOf(km, delim, k))
      {
        SurvivesAppend(front, k, km, delim, i);
      }
      if p == PathOf(km, delim, k) && flat[k] == v {
        assert PutBy(order, flat, km, delim, p, v, |front|);
      } else if i :| PutBy(front, flat, km, delim, p, v, i) && !Nested(p, PathOf(km, delim, k)) {
        assert PutBy(order, flat, km, delim, p, v, i);
      }
    }
  }

  ghost predicate HasKey(keys: seq<string>, km: KeyMap, delim: char, p: Path) {
    exists k :: k in keys && PathOf(km, delim, k) == p
  }

  /** Every key has its value at its path, and there is nothing else. */
  ghost predicate Complete<V>(leaves: map<Path, V>, keys: seq<string>, flat: map<string, V>, km: KeyMap, delim: char)
    requires forall k :: k in keys ==> k in flat
  {
    && (forall k :: k in keys ==> PathOf(km, delim, k) in leaves && leaves[PathOf(km, delim, k)] == flat[k])
    && (forall p {:trigger HasKey(keys, km, delim, p)} :: p in leaves ==> HasKey(keys, km, delim, p))
  }

  lemma PutKeepsComplete<V>(leaves: map<Path, V>, keys: seq<string>, k: string, flat: map<string, V>, km: KeyMap, delim: char)
    requires k in flat && forall j :: j in keys ==> j in flat
    requires Compatible(flat, km, delim) && Complete(leaves, keys, flat, km, delim)
    ensures Complete(PutAt(leaves, PathOf(km, delim, k), flat[k]), keys + [k], flat, km, delim)
  {
    var leaves' := PutAt(leaves, PathOf(km, delim, k), flat[k]);
    forall p | p in leaves' ensures HasKey(keys + [k], km, delim, p) {
      if p == PathOf(km, delim, k) {
        assert k in keys + [k];
      } else {
        assert HasKey(keys, km, delim, p);
        var j :| j in keys && PathOf(km, delim, j) == p;
        assert j in keys + [k];
      }
    }
  }

  /** With compatible keys a value is displaced only by an equal one at the same path, so every key's value is left,
      whatever the order. */
  lemma {:induction false} OutcomeWhenCompatible<V>(order: seq<string>, flat: map<string, V>, km: KeyMap, delim: char)
    requires forall k :: k in order ==> k in flat
    requires Compatible(flat, km, delim)
    ensures Complete(Outcome(order, flat, km, delim), order, flat, km, delim)
  {
    if order != [] {
      var front, last := order[..|order| - 1], order[|order| - 1];
      assert order == front + [last];
      OutcomeWhenCompatible(front, flat, km, delim);
      PutKeepsComplete(Outcome(front, flat, km, delim), front, last, flat, km, delim);
    }
  }

  lemma {:induction false} OrderExists(keys: set<string>) returns (order: seq<string>)
    ensures forall k :: k in order <==> k in keys
    ensures forall i, j :: 0 <= i < j < |order| ==> order[i] != order[j]
  {
    if keys == {} {
      order := [];
    } else {
      var k :| k in keys;
      var rest := OrderExists(keys - {k});
      order := rest + [k];
    }
  }

  /** Any key may be the last, and then its value is left. */
  lemma LastKeyWins<V>(flat: map<string, V>, km: KeyMap, delim: char, k: string) returns (order: seq<string>)
    requires k in flat
    ensures IsOrder(order, flat)
    ensures var leaves, p := Outcome(order, flat, km, delim), PathOf(km, delim, k);
            p in leaves && leaves[p] == flat[k] && forall q :: q in leaves && Nested(q, p) ==> q == p
  {
    var rest := OrderExists(flat.Keys - {k});
    order := rest + [k];
    assert order[..|order| - 1] == rest;
  }

  ghost predicate OrderIndependent<V(!new)>(flat: map<string, V>, km: KeyMap, delim: char) {
    forall o1, o2 :: IsOrder(o1, flat) && IsOrder(o2, flat) ==> Outcome(o1, flat, km, delim) == Outcome(o2, flat, km, delim)
  }

  /** Two keys that are not compatible, each taken last, lead to different values. */
  lemma ClashingOrders<V>(flat: map<string, V>, km: KeyMap, delim: char, a: string, b: string) returns (o1: seq<string>, o2: seq<string>)
    requires a in flat && b in flat && PathOf(km, delim, a) <= PathOf(km, delim, b)
    requires PathOf(km, delim, a) != PathOf(km, delim, b) || flat[a] != flat[b]
    ensures IsOrder(o1, flat) && IsOrder(o2, flat)
    ensures Outcome(o1, flat, km, delim) != Outcome(o2, flat, km, delim)
  {
    o1 := LastKeyWins(flat, km, delim, a);
    o2 := LastKeyWins(flat, km, delim, b);
    assert Nested(PathOf(km, delim, b), PathOf(km, delim, a));
  }

  lemma CompleteAgree<V>(l1: map<Path, V>, o1: seq<string>, l2: map<Path, V>, o2: seq<string>, flat: map<string, V>, km: KeyMap, delim: char, p: Path)
    requires IsOrder(o1, flat) && IsOrder(o2, flat)
    requires Complete(l1, o1, flat, km, delim) && Complete(l2, o2, flat, km, delim) && p in l1
    ensures p in l2 && l1[p] == l2[p]
  {
    assert HasKey(o1, km, delim, p);
    var k :| k in o1 && PathOf(km, delim, k) == p;
    assert k in o2;
  }

  lemma CompleteSame<V>(l1: map<Path, V>, o1: seq<string>, l2: map<Path, V>, o2: seq<string>, flat: map<string, V>, km: KeyMap, delim: char)
    requires IsOrder(o1, flat) && IsOrder(o2, flat)
    requires Complete(l1, o1, flat, km, delim) && Complete(l2, o2, flat, km, delim)
    ensures l1 == l2
  {
    forall p | p in l1 ensures p in l2 && l1[p] == l2[p] {
      CompleteAgree(l1, o1, l2, o2, flat, km, delim, p);
    }
    forall p | p in l2 ensures p in l1 {
      CompleteAgree(l2, o2, l1, o1, flat, km, delim, p);
    }
  }

  lemma SameOutcomes<V>(o1: seq<string>, o2: seq<string>, flat: map<string, V>, km: KeyMap, delim: char)
    requires IsOrder(o1, flat) && IsOrder(o2, flat) && Compatible(flat, km, delim)
    ensures Outcome(o1, flat, km, delim) == Outcome(o2, flat, km, delim)
  {
    OutcomeWhenCompatible(o1, flat, km, delim);
    OutcomeWhenCompatible(o2, flat, km, delim);
    CompleteSame(Outcome(o1, flat, km, delim), o1, Outcome(o2, flat, km, delim), o2, flat, km, delim);
  }

  /** The values and their paths depend on the iteration order if and only if two keys are not compatible. */
  lemma OrderIndependentIffCompatible<V(!new)>(flat: map<string, V>, km: KeyMap, delim: char)
    ensures OrderIndependent(flat, km, delim) <==> Compatible(flat, km, delim)
  {
    if Compatible(flat, km, delim) {
      forall o1, o2 | IsOrder(o1, flat) && IsOrder(o2, flat) ensures Outcome(o1, flat, km, delim) == Outcome(o2, flat, km, delim) {
        SameOutcomes(o1, o2, flat, km, delim);
      }
    } else {
      var a, b :| a in flat && b in flat && PathOf(km, delim, a) <= PathOf(km, delim, b)
                  && !(PathOf(km, delim, a) == PathOf(km, delim, b) && flat[a] == flat[b]);
      var o1, o2 := ClashingOrders(flat, km, delim, a, b);
    }
  }

  lemma SplitAtDot(c: char, d: char)
    requires c != '.' && d != '.'
    ensures Split([c], '.') == [[c]] && Split([c, '.', d], '.') == [[c], [d]]
  {
    SplitOne(c);
    SplitOne(d);
    assert ['.', d][1..] == [d] && Split(['.', d], '.') == ["", [d]];
    assert [c, '.', d][1..] == ['.', d];
    assert [c] + "" == [c] && ["", [d]][1..] == [[d]];
  }

  lemma SplitOne(c: char)
    requires c != '.'
    ensures Split([c], '.') == [[c]]
  {
    assert [c][1..] == "" && Split("", '.') == [""];
    assert [c] + "" == [c] && [""][1..] == [];
  }

  /** The keys "a" and "a.b": one order leaves only the first value, another only the second. */
  lemma DottedKeyClashes() returns (flat: map<string, int>, o1: seq<string>, o2: seq<string>)
    ensures flat == map["a" := 1, "a.b" := 2]
    ensures IsOrder(o1, flat) && IsOrder(o2, flat)
    ensures Outcome(o1, flat, map[], '.') == map[["a"] := 1] && Outcome(o2, flat, map[], '.') == map[["a", "b"] := 2]
  {
    flat := map["a" := 1, "a.b" := 2];
    SplitAtDot('a', 'b');
    var p, q: Path := ["a"], ["a", "b"];
    assert PathOf(map[], '.', "a") == p && PathOf(map[], '.', "a.b") == q && p == q[..1] && Nested(p, q);
    o1, o2 := ["a.b", "a"], ["a", "a.b"];
    assert o1[..1] == ["a.b"] && o2[..1] == ["a"] && o1[..1][..0] == [] && o2[..1][..0] == [];
    assert Outcome(o1[..1], flat, map[], '.') == map[q := 2];
    assert Outcome(o2[..1], flat, map[], '.') == map[p := 1];
  }

  // ----- nested maps ------------------------------------------------------------------------------

  datatype Value<V> = Leaf(leaf: V) | Sub(node: Node<V>)

  class Node<V> {
    var entries: map<string, Value<V>>

    constructor ()
      ensures entries == map[]
    {
      entries := map[];
    }
  }

  /** What a path leads to. */
  ghost function Get<V>(n: Node<V>, p: Path, nodes: set<Node<V>>): Option<Value<V>>
    reads n, nodes
    decreases p
  {
    if p == [] then Some(Sub(n))
    else if p[0] !in n.entries then None
    else if |p| == 1 then Some(n.entries[p[0]])
    else if n.entries[p[0]].Sub? && n.entries[p[0]].node in nodes then Get(n.entries[p[0]].node, p[1..], nodes)
    else None
  }

  /** `nodes` has every map that can be reached from `root`. */
  ghost predicate Closed<V>(root: Node<V>, nodes: set<Node<V>>)
    reads nodes
  {
    root in nodes && forall n, k :: n in nodes && k in n.entries && n.entries[k].Sub? ==> n.entries[k].node in nodes
  }

  ghost predicate LeadsToMap<V>(root: Node<V>, p: Path, nodes: set<Node<V>>)
    reads root, nodes
  {
    Get(root, p, nodes).Some? && Get(root, p, nodes).value.Sub?
  }

  /** The path runs through that of some value. */
  ghost predicate OnTheWay<V>(leaves: map<Path, V>, p: Path) {
    p == [] || exists q :: q in leaves && p < q
  }

  /** In the whole structure the paths that lead to a value are those of `leaves`, each to its own, and the paths that
      lead to a map are those on the way to one. */
  ghost predicate Holds<V(!new)>(root: Node<V>, nodes: set<Node<V>>, leaves: map<Path, V>)
    reads root, nodes
  {
    && Closed(root, nodes)
    && (forall p: Path, v: V :: Get(root, p, nodes) == Some(Leaf(v)) <==> p in leaves && leaves[p] == v)
    && (forall p: Path :: LeadsToMap(root, p, nodes) <==> OnTheWay(leaves, p))
  }

  /** So nothing else hangs in the result: every entry of the outermost map starts the path of some value. */
  lemma NoStrayEntry<V(!new)>(root: Node<V>, nodes: set<Node<V>>, leaves: map<Path, V>, k: string)
    requires Holds(root, nodes, leaves) && k in root.entries
    ensures exists q :: q in leaves && [k] <= q
  {
    if root.entries[k].Leaf? {
      assert Get(root, [k], nodes) == Some(Leaf(root.entries[k].leaf));
      assert [k] in leaves && [k] <= [k];
    } else {
      assert LeadsToMap(root, [k], nodes);
      var q :| q in leaves && [k] < q;
    }
  }

  /** The same paths lead to the same values, and the same paths to maps. */
  ghost predicate SameContents<V(!new)>(r1: Node<V>, n1: set<Node<V>>, r2: Node<V>, n2: set<Node<V>>)
    reads r1, n1, r2, n2
  {
    && (forall p: Path, v: V :: Get(r1, p, n1) == Some(Leaf(v)) <==> Get(r2, p, n2) == Some(Leaf(v)))
    && (forall p: Path :: LeadsToMap(r1, p, n1) <==> LeadsToMap(r2, p, n2))
  }

  /** Two structures have the same contents exactly when the same values were left in both. */
  lemma SameContentsIffSameLeaves<V(!new)>(r1: Node<V>, n1: set<Node<V>>, l1: map<Path, V>, r2: Node<V>, n2: set<Node<V>>, l2: map<Path, V>)
    requires Holds(r1, n1, l1) && Holds(r2, n2, l2)
    ensures SameContents(r1, n1, r2, n2) <==> l1 == l2
  {
    if SameContents(r1, n1, r2, n2) {
      forall p | p in l1 ensures p in l2 && l1[p] == l2[p] {
        assert Get(r1, p, n1) == Some(Leaf(l1[p]));
      }
      forall p | p in l2 ensures p in l1 {
        assert Get(r2, p, n2) == Some(Leaf(l2[p]));
      }
    }
  }

  /** In the whole structure every key's path leads to its value, no other path leads to a value, and none leads to a
      map but on the way to a key. */
  ghost predicate Faithful<V(!new)>(root: Node<V>, nodes: set<Node<V>>, flat: map<string, V>, km: KeyMap, delim: char)
    reads root, nodes
  {
    && Closed(root, nodes)
    && (forall p: Path :: LeadsToMap(root, p, nodes) ==> p == [] || exists k :: k in flat && p < PathOf(km, delim, k))
    && (forall k :: k in flat ==> Get(root, PathOf(km, delim, k), nodes) == Some(Leaf(flat[k])))
    && (forall p: Path, v: V :: Get(root, p, nodes) == Some(Leaf(v)) ==> exists k :: k in flat && PathOf(km, delim, k) == p && flat[k] == v)
  }

  /** In any nested structure, two paths that both lead to a value do not run through each other. */
  lemma {:induction false} LeavesDoNotNest<V>(n: Node<V>, p: Path, q: Path, nodes: set<Node<V>>)
    requires p != [] && p <= q
    requires Get(n, p, nodes).Some? && Get(n, p, nodes).value.Leaf? && Get(n, q, nodes).Some?
    ensures p == q
    decreases p
  {
    if |p| > 1 {
      LeavesDoNotNest(n.entries[p[0]].node, p[1..], q[1..], nodes);
      assert p == [p[0]] + p[1..] && q == [q[0]] + q[1..];
    }
  }

  /** So a faithful structure exists only for compatible keys. */
  lemma FaithfulNeedsCompatible<V(!new)>(root: Node<V>, nodes: set<Node<V>>, flat: map<string, V>, km: KeyMap, delim: char)
    requires PathsNonEmpty(flat, km, delim) && Faithful(root, nodes, flat, km, delim)
    ensures Compatible(flat, km, delim)
  {
    forall a, b | a in flat && b in flat && PathOf(km, delim, a) <= PathOf(km, delim, b)
      ensures PathOf(km, delim, a) == PathOf(km, delim, b) && flat[a] == flat[b]
    {
      LeavesDoNotNest(root, PathOf(km, delim, a), PathOf(km, delim, b), nodes);
    }
  }

  lemma CompleteHasKey<V>(leaves: map<Path, V>, order: seq<string>, flat: map<string, V>, km: KeyMap, delim: char, p: Path) returns (k: string)
    requires IsOrder(order, flat) && Complete(leaves, order, flat, km, delim) && p in leaves
    ensures k in flat && PathOf(km, delim, k) == p && flat[k] == leaves[p]
  {
    assert HasKey(order, km, delim, p);
    k :| k in order && PathOf(km, delim, k) == p;
  }

  lemma CompleteIsFaithful<V(!new)>(root: Node<V>, nodes: set<Node<V>>, leaves: map<Path, V>, order: seq<string>, flat: map<string, V>, km: KeyMap, delim: char)
    requires IsOrder(order, flat) && Complete(leaves, order, flat, km, delim) && Holds(root, nodes, leaves)
    ensures Faithful(root, nodes, flat, km, delim)
  {
    forall p: Path, v: V | Get(root, p, nodes) == Some(Leaf(v)) ensures exists k :: k in flat && PathOf(km, delim, k) == p && flat[k] == v {
      var k := CompleteHasKey(leaves, order, flat, km, delim, p);
    }
    forall p: Path | LeadsToMap(root, p, nodes) && p != [] ensures exists k :: k in flat && p < PathOf(km, delim, k) {
      assert OnTheWay(leaves, p);
      var q :| q in leaves && p < q;
      var k := CompleteHasKey(leaves, order, flat, km, delim, q);
    }
    forall k | k in flat ensures Get(root, PathOf(km, delim, k), nodes) == Some(Leaf(flat[k])) {
      assert k in order;
    }
  }

  /** What the loop leaves is faithful if and only if the keys are compatible. */
  lemma FaithfulIffCompatible<V(!new)>(root: Node<V>, nodes: set<Node<V>>, order: seq<string>, flat: map<string, V>, km: KeyMap, delim: char)
    requires PathsNonEmpty(flat, km, delim) && IsOrder(order, flat)
    requires Holds(root, nodes, Outcome(order, flat, km, delim))
    ensures Faithful(root, nodes, flat, km, delim) <==> Compatible(flat, km, delim)
  {
    if Compatible(flat, km, delim) {
      OutcomeWhenCompatible(order, flat, km, delim);
      CompleteIsFaithful(root, nodes, Outcome(order, flat, km, delim), order, flat, km, delim);
    } else if Faithful(root, nodes, flat, km, delim) {
      FaithfulNeedsCompatible(root, nodes, flat, km, delim);
    }
  }

  // ----- the structure while it is built ----------------------------------------------------------

  function Init(p: Path): Path requires p != [] { p[..|p| - 1] }
  function Last(p: Path): string requires p != [] { p[|p| - 1] }

  /** What the maps hold, each under the path it was built for. */
  type Table<V> = map<Path, map<string, Value<V>>>

  ghost function Entries<V>(at: map<Path, Node<V>>): Table<V>
    reads at.Values
  {
    map p | p in at :: at[p].entries
  }

  /** The entry `k` of the map for `p`: a value in place there, or the map for the longer path. */
  ghost predicate EntryRight<V>(at: map<Path, Node<V>>, table: Table<V>, leaves: map<Path, V>, p: Path, k: string) {
    p in table && k in table[p] ==>
      match table[p][k]
      case Leaf(v) => p + [k] in leaves && leaves[p + [k]] == v
      case Sub(n) => p + [k] in at && at[p + [k]] == n
  }

  /** What is at path `q` is found in the map for the rest of the path. */
  ghost predicate FoundAt<V>(table: Table<V>, q: Path, e: Value<V>) {
    q != [] && Init(q) in table && Last(q) in table[Init(q)] && table[Init(q)][Last(q)] == e
  }

  ghost predicate ValueRight<V>(table: Table<V>, leaves: map<Path, V>, q: Path) {
    q in leaves ==> FoundAt(table, q, Leaf(leaves[q]))
  }

  ghost predicate MapRight<V>(at: map<Path, Node<V>>, table: Table<V>, q: Path) {
    q in at && q != [] ==> FoundAt(table, q, Sub(at[q]))
  }

  /** `at` gives the map in use for each path and `leaves` the values in place: the entries are exactly these, and no
      map is in use for two paths. */
  ghost predicate Right<V>(at: map<Path, Node<V>>, table: Table<V>, leaves: map<Path, V>) {
    && [] in at && table.Keys == at.Keys
    && (forall p, q {:trigger at[p], at[q]} :: p in at && q in at && at[p] == at[q] ==> p == q)
    && (forall p, k {:trigger EntryRight(at, table, leaves, p, k)} :: EntryRight(at, table, leaves, p, k))
    && (forall q {:trigger ValueRight(table, leaves, q)} :: ValueRight(table, leaves, q))
    && (forall q {:trigger MapRight(at, table, q)} :: MapRight(at, table, q))
  }

  ghost predicate Shape<V>(at: map<Path, Node<V>>, leaves: map<Path, V>)
    reads at.Values
  {
    Right(at, Entries(at), leaves)
  }

  lemma {:induction false} PrefixesBuilt<V>(at: map<Path, Node<V>>, table: Table<V>, leaves: map<Path, V>, q: Path, n: nat)
    requires Right(at, table, leaves) && q in at && n <= |q|
    ensures q[..n] in at
  {
    if n < |q| {
      assert MapRight(at, table, q);
      PrefixesBuilt(at, table, leaves, Init(q), n);
      assert Init(q)[..n] == q[..n];
    } else {
      assert q[..n] == q;
    }
  }

  lemma Linked<V>(at: map<Path, Node<V>>, table: Table<V>, leaves: map<Path, V>, p: Path, k: string)
    requires Right(at, table, leaves) && p + [k] in at
    ensures p in at && k in table[p] && table[p][k] == Sub(at[p + [k]])
  {
    assert MapRight(at, table, p + [k]);
    assert Init(p + [k]) == p && Last(p + [k]) == k;
  }

  lemma Placed<V>(at: map<Path, Node<V>>, table: Table<V>, leaves: map<Path, V>, p: Path, k: string)
    requires Right(at, table, leaves) && p in at
    ensures p + [k] in leaves <==> k in table[p] && table[p][k].Leaf?
    ensures p + [k] in leaves ==> table[p][k] == Leaf(leaves[p + [k]])
  {
    assert EntryRight(at, table, leaves, p, k);
    assert ValueRight(table, leaves, p + [k]);
    assert Init(p + [k]) == p && Last(p + [k]) == k;
  }

  /** Following a path is looking it up among the values in place. */
  lemma {:induction false} GetFinds<V>(at: map<Path, Node<V>>, leaves: map<Path, V>, p: Path, q: Path)
    requires Shape(at, leaves) && p in at && q != [] && p + q in leaves
    ensures Get(at[p], q, at.Values) == Some(Leaf(leaves[p + q]))
    decreases |q|
  {
    var table := Entries(at);
    if |q| == 1 {
      assert q == [q[0]];
      Placed(at, table, leaves, p, q[0]);
    } else {
      var next := p + [q[0]];
      assert next + q[1..] == p + q;
      assert ValueRight(table, leaves, p + q);
      assert Init(p + q)[..|p| + 1] == next;
      PrefixesBuilt(at, table, leaves, Init(p + q), |p| + 1);
      Linked(at, table, leaves, p, q[0]);
      GetFinds(at, leaves, next, q[1..]);
      assert at[next] in at.Values;
    }
  }

  lemma {:induction false} GetFindsOnly<V>(at: map<Path, Node<V>>, leaves: map<Path, V>, p: Path, q: Path, v: V)
    requires Shape(at, leaves) && p in at && Get(at[p], q, at.Values) == Some(Leaf(v))
    ensures p + q in leaves && leaves[p + q] == v
    decreases |q|
  {
    assert EntryRight(at, Entries(at), leaves, p, q[0]);
    if |q| == 1 {
      assert q == [q[0]];
    } else {
      var next := p + [q[0]];
      assert next + q[1..] == p + q;
      GetFindsOnly(at, leaves, next, q[1..], v);
    }
  }

  /** A path leads to the map in use for it, and to no map otherwise. */
  lemma {:induction false} GetFindsMap<V>(at: map<Path, Node<V>>, leaves: map<Path, V>, p: Path, q: Path)
    requires Shape(at, leaves) && p in at
    ensures LeadsToMap(at[p], q, at.Values) <==> p + q in at
    decreases |q|
  {
    if q == [] {
      assert p + q == p;
    } else {
      var next, table := p + [q[0]], Entries(at);
      assert next + q[1..] == p + q;
      assert EntryRight(at, table, leaves, p, q[0]);
      if p + q in at {
        assert (p + q)[..|p| + 1] == next;
        PrefixesBuilt(at, table, leaves, p + q, |p| + 1);
        Linked(at, table, leaves, p, q[0]);
      }
      if next in at {
        assert at[next] in at.Values;
        Linked(at, table, leaves, p, q[0]);
        GetFindsMap(at, leaves, next, q[1..]);
      }
      if |q| == 1 {
        assert q == [q[0]];
      }
    }
  }

  lemma ShapeClosed<V>(at: map<Path, Node<V>>, leaves: map<Path, V>)
    requires Shape(at, leaves)
    ensures Closed(at[[]], at.Values)
  {
    assert at[[]] in at.Values;
    forall n, k | n in at.Values && k in n.entries && n.entries[k].Sub? ensures n.entries[k].node in at.Values {
      var p :| p in at && at[p] == n;
      assert EntryRight(at, Entries(at), leaves, p, k);
    }
  }

  /** Every map in use is on the way to a value. */
  ghost predicate Neat<V>(at: map<Path, Node<V>>, leaves: map<Path, V>) {
    forall q :: q in at ==> OnTheWay(leaves, q)
  }

  lemma ValuesFound<V(!new)>(at: map<Path, Node<V>>, leaves: map<Path, V>, p: Path, v: V)
    requires Shape(at, leaves)
    ensures Get(at[[]], p, at.Values) == Some(Leaf(v)) <==> p in leaves && leaves[p] == v
  {
    assert [] + p == p;
    if p in leaves {
      assert ValueRight(Entries(at), leaves, p);
      GetFinds(at, leaves, [], p);
    } else if Get(at[[]], p, at.Values) == Some(Leaf(v)) {
      GetFindsOnly(at, leaves, [], p, v);
    }
  }

  lemma MapsFound<V>(at: map<Path, Node<V>>, leaves: map<Path, V>, p: Path)
    requires Shape(at, leaves) && Neat(at, leaves)
    ensures LeadsToMap(at[[]], p, at.Values) <==> OnTheWay(leaves, p)
  {
    assert [] + p == p;
    GetFindsMap(at, leaves, [], p);
    if q :| q in leaves && p < q {
      assert ValueRight(Entries(at), leaves, q);
      assert Init(q)[..|p|] == p;
      PrefixesBuilt(at, Entries(at), leaves, Init(q), |p|);
    }
  }

  lemma ShapeHolds<V(!new)>(at: map<Path, Node<V>>, leaves: map<Path, V>)
    requires Shape(at, leaves) && Neat(at, leaves)
    ensures Holds(at[[]], at.Values, leaves)
  {
    ShapeClosed(at, leaves);
    forall p: Path, v: V ensures Get(at[[]], p, at.Values) == Some(Leaf(v)) <==> p in leaves && leaves[p] == v {
      ValuesFound(at, leaves, p, v);
    }
    forall p: Path ensures LeadsToMap(at[[]], p, at.Values) <==> OnTheWay(leaves, p) {
      MapsFound(at, leaves, p);
    }
  }

  // ----- building it ------------------------------------------------------------------------------

  function SetEntry<V>(table: Table<V>, p: Path, k: string, e: Value<V>): Table<V>
    requires p in table
  {
    table[p := table[p][k := e]]
  }

  lemma AppendInjective(q: Path, j: string, p: Path, k: string)
    ensures q + [j] == p + [k] <==> q == p && j == k
  {
    if q + [j] == p + [k] {
      assert (q + [j])[..|q|] == q && (p + [k])[..|p|] == p && (q + [j])[|q|] == j && (p + [k])[|p|] == k;
    }
  }

  /** Setting an entry changes what is found at one path. */
  lemma SetEntryFinds<V>(table: Table<V>, p: Path, k: string, e: Value<V>, q: Path, f: Value<V>)
    requires p in table
    ensures FoundAt(SetEntry(table, p, k, e), q, f) <==> if q == p + [k] then f == e else FoundAt(table, q, f)
  {
    assert Init(p + [k]) == p && Last(p + [k]) == k;
    if q != [] {
      assert q == Init(q) + [Last(q)];
    }
  }

  /** The table once a new, empty map is at entry `k` of the map for `p`. */
  function Grown<V>(table: Table<V>, p: Path, k: string, sub: Node<V>): Table<V>
    requires p in table
  {
    SetEntry(table, p, k, Sub(sub))[p + [k] := map[]]
  }

  lemma GrownFinds<V>(table: Table<V>, p: Path, k: string, sub: Node<V>, q: Path, e: Value<V>)
    requires p in table && p + [k] !in table
    ensures FoundAt(Grown(table, p, k, sub), q, e) <==> if q == p + [k] then e == Sub(sub) else FoundAt(table, q, e)
  {
    SetEntryFinds(table, p, k, Sub(sub), q, e);
    assert p != p + [k];
  }

  lemma GrownEntry<V>(at: map<Path, Node<V>>, table: Table<V>, leaves: map<Path, V>, p: Path, k: string, sub: Node<V>, q: Path, j: string)
    requires p in table && p + [k] !in table && p + [k] !in at && EntryRight(at, table, leaves, q, j)
    ensures EntryRight(at[p + [k] := sub], Grown(table, p, k, sub), leaves - {p + [k]}, q, j)
  {
    AppendInjective(q, j, p, k);
  }

  /** A new map at entry `k` of the map for `p` keeps the structure right, without the value that was there. */
  lemma MapAdded<V>(at: map<Path, Node<V>>, table: Table<V>, leaves: map<Path, V>, p: Path, k: string, sub: Node<V>)
    requires Right(at, table, leaves) && p in at && p + [k] !in at && sub !in at.Values
    ensures Right(at[p + [k] := sub], Grown(table, p, k, sub), leaves - {p + [k]})
  {
    var at', table', leaves' := at[p + [k] := sub], Grown(table, p, k, sub), leaves - {p + [k]};
    forall q, j ensures EntryRight(at', table', leaves', q, j) {
      assert EntryRight(at, table, leaves, q, j);
      GrownEntry(at, table, leaves, p, k, sub, q, j);
    }
    forall q ensures ValueRight(table', leaves', q) {
      if q in leaves' {
        assert ValueRight(table, leaves, q);
        GrownFinds(table, p, k, sub, q, Leaf(leaves[q]));
      }
    }
    forall q ensures MapRight(at', table', q) {
      if q in at' && q != [] {
        assert MapRight(at, table, q);
        GrownFinds(table, p, k, sub, q, Sub(at'[q]));
      }
    }
  }

  /** Puts a new map at entry `k` of the map for `p`, displacing a value that is there. */
  method AddMap<V>(next: Node<V>, k: string, ghost at: map<Path, Node<V>>, ghost leaves: map<Path, V>, ghost p: Path) returns (sub: Node<V>)
    requires Shape(at, leaves) && p in at && at[p] == next && p + [k] !in at
    modifies next
    ensures fresh(sub)
    ensures Shape(at[p + [k] := sub], leaves - {p + [k]})
  {
    ghost var table := Entries(at);
    sub := new Node<V>();
    next.entries := next.entries[k := Sub(sub)];
    MapAdded(at, table, leaves, p, k, sub);
    assert Entries(at[p + [k] := sub]) == Grown(table, p, k, sub);
  }

  /** What is left when everything at or below a path is taken away. */
  ghost function Without<T>(m: map<Path, T>, parts: Path): map<Path, T> {
    map q | q in m && !(parts <= q) :: m[q]
  }

  lemma WithoutValues<V>(at: map<Path, Node<V>>, parts: Path)
    ensures Without(at, parts).Values <= at.Values
  {
  }

  lemma NotBelow(parts: Path, q: Path, j: string)
    requires !(parts <= q)
    ensures parts <= q + [j] <==> parts == q + [j]
  {
  }

  /** What is found outside the part taken away is still found. */
  lemma WithoutFinds<V>(table: Table<V>, parts: Path, q: Path, e: Value<V>)
    requires FoundAt(table, q, e) && (q == parts || !(parts <= q))
    ensures FoundAt(Without(table, parts), q, e)
  {
    assert q == Init(q) + [Last(q)];
  }

  /** A value at entry `k` of the map for `p` keeps the structure right, without what was there and below. */
  lemma LeafPut<V>(at: map<Path, Node<V>>, table: Table<V>, leaves: map<Path, V>, p: Path, k: string, v: V)
    requires Right(at, table, leaves) && p in at
    ensures Right(Without(at, p + [k]), Without(SetEntry(table, p, k, Leaf(v)), p + [k]), Without(leaves, p + [k])[p + [k] := v])
  {
    var parts := p + [k];
    var at', table', leaves' := Without(at, parts), Without(SetEntry(table, p, k, Leaf(v)), parts), Without(leaves, parts)[parts := v];
    forall q, j ensures EntryRight(at', table', leaves', q, j) {
      if q in table' {
        assert EntryRight(at, table, leaves, q, j);
        AppendInjective(q, j, p, k);
        NotBelow(parts, q, j);
      }
    }
    forall q ensures ValueRight(table', leaves', q) {
      if q in leaves' {
        assert ValueRight(table, leaves, q);
        SetEntryFinds(table, p, k, Leaf(v), q, Leaf(leaves'[q]));
        WithoutFinds(SetEntry(table, p, k, Leaf(v)), parts, q, Leaf(leaves'[q]));
      }
    }
    forall q ensures MapRight(at', table', q) {
      if q in at' && q != [] {
        assert MapRight(at, table, q);
        SetEntryFinds(table, p, k, Leaf(v), q, Sub(at[q]));
        WithoutFinds(SetEntry(table, p, k, Leaf(v)), parts, q, Sub(at[q]));
      }
    }
  }

  /** What is left when every value a path runs through is taken away. */
  ghost function Passed<V>(leaves: map<Path, V>, p: Path): map<Path, V> {
    map q | q in leaves && !(q <= p) :: leaves[q]
  }

  lemma PrefixOfExtended(q: Path, p: Path, k: string)
    ensures q <= p + [k] <==> q <= p || q == p + [k]
  {
    if q <= p + [k] && |q| <= |p| {
      assert (p + [k])[..|q|] == p[..|q|];
    }
  }

  lemma PassedExtends<V>(leaves: map<Path, V>, p: Path, k: string)
    ensures Passed(leaves, p + [k]) == Passed(leaves, p) - {p + [k]}
  {
    forall q | q in leaves ensures q <= p + [k] <==> q <= p || q == p + [k] {
      PrefixOfExtended(q, p, k);
    }
  }

  lemma PassedThenPut<V>(leaves: map<Path, V>, p: Path, k: string, v: V)
    ensures Without(Passed(leaves, p), p + [k])[p + [k] := v] == PutAt(leaves, p + [k], v)
  {
    forall q | q in leaves ensures q <= p + [k] <==> q <= p || q == p + [k] {
      PrefixOfExtended(q, p, k);
    }
  }

  /** Puts a value at the end of a path, displacing the value or the map that is there. */
  method SetLeaf<V>(next: Node<V>, parts: Path, v: V, ghost at: map<Path, Node<V>>, ghost leaves: map<Path, V>)
    requires parts != [] && Init(parts) in at && at[Init(parts)] == next
    requires Shape(at, Passed(leaves, Init(parts)))
    modifies next
    ensures Shape(Without(at, parts), PutAt(leaves, parts, v))
  {
    ghost var table, p, k := Entries(at), Init(parts), Last(parts);
    next.entries := next.entries[parts[|parts| - 1] := Leaf(v)];
    assert p + [k] == parts;
    LeafPut(at, table, Passed(leaves, p), p, k, v);
    assert Entries(Without(at, parts)) == Without(SetEntry(table, p, k, Leaf(v)), parts);
    PassedThenPut(leaves, p, k, v);
  }

  lemma ValuesOfUpdate<V>(at: map<Path, Node<V>>, p: Path, n: Node<V>)
    ensures at[p := n].Values <= at.Values + {n}
  {
  }

  /** One step down the path, making the map if it is missing and putting it over a value in the way. */
  method Descend<V>(next: Node<V>, k: string, ghost at: map<Path, Node<V>>, ghost leaves: map<Path, V>, ghost p: Path)
    returns (sub: Node<V>, ghost at': map<Path, Node<V>>)
    requires Shape(at, leaves) && p in at && at[p] == next
    modifies next
    ensures Shape(at', leaves - {p + [k]}) && p + [k] in at' && at'[p + [k]] == sub && at'[[]] == at[[]]
    ensures at'.Keys == at.Keys + {p + [k]}
    ensures fresh(at'.Values - at.Values)
  {
    at' := at;
    assert EntryRight(at, Entries(at), leaves, p, k);
    if k in next.entries && next.entries[k].Sub? {
      Placed(at, Entries(at), leaves, p, k);
      assert leaves - {p + [k]} == leaves;
      sub := next.entries[k].node;
    } else {
      if p + [k] in at {
        Linked(at, Entries(at), leaves, p, k);
      }
      sub := AddMap(next, k, at, leaves, p);
      ValuesOfUpdate(at, p + [k], sub);
      at' := at[p + [k] := sub];
    }
  }

  /** What was added to a set of paths is on the way to `p`. */
  ghost predicate AddedAlong(keys: set<Path>, keys': set<Path>, p: Path) {
    forall q :: q in keys' ==> q in keys || q <= p
  }

  lemma AddedAlongGrows(keys: set<Path>, keys': set<Path>, p: Path, k: string)
    requires AddedAlong(keys, keys', p)
    ensures AddedAlong(keys, keys' + {p + [k]}, p + [k])
  {
    forall q | q in keys' + {p + [k]} ensures q in keys || q <= p + [k] {
      PrefixOfExtended(q, p, k);
    }
  }

  /** Walks down to the map for all but the last part of a path. */
  method Walk<V>(out: Node<V>, parts: Path, ghost at: map<Path, Node<V>>, ghost leaves: map<Path, V>)
    returns (next: Node<V>, ghost at': map<Path, Node<V>>)
    requires parts != [] && Shape(at, leaves) && at[[]] == out
    modifies at.Values
    ensures fresh(at'.Values - at.Values)
    ensures Shape(at', Passed(leaves, Init(parts))) && at'[[]] == out
    ensures Init(parts) in at' && at'[Init(parts)] == next
    ensures AddedAlong(at.Keys, at'.Keys, Init(parts))
  {
    at', next := at, out;
    assert Passed(leaves, []) == leaves by {
      assert ValueRight(Entries(at), leaves, []);
    }
    for i := 0 to |parts| - 1
      invariant fresh(at'.Values - at.Values)
      invariant Shape(at', Passed(leaves, parts[..i])) && at'[[]] == out
      invariant parts[..i] in at' && at'[parts[..i]] == next
      invariant AddedAlong(at.Keys, at'.Keys, parts[..i])
    {
      ghost var p := parts[..i];
      assert p + [parts[i]] == parts[..i + 1];
      PassedExtends(leaves, p, parts[i]);
      assert at'[p] in at'.Values;
      AddedAlongGrows(at.Keys, at'.Keys, p, parts[i]);
      next, at' := Descend(next, parts[i], at', Passed(leaves, p), p);
    }
  }

  lemma StillOnTheWay<V>(leaves: map<Path, V>, parts: Path, v: V, q: Path)
    requires OnTheWay(leaves, q) && !Nested(q, parts)
    ensures OnTheWay(PutAt(leaves, parts, v), q)
  {
    var l :| l in leaves && q < l;
    assert l in PutAt(leaves, parts, v);
  }

  /** The maps made on the way to a value, and the others that are left, are all on the way to one. */
  lemma NeatAfterPut<V>(at: map<Path, Node<V>>, at': map<Path, Node<V>>, leaves: map<Path, V>, parts: Path, v: V)
    requires parts != [] && Neat(at, leaves)
    requires AddedAlong(at.Keys, at'.Keys, Init(parts)) && forall q :: q in at' ==> !(parts <= q)
    ensures Neat(at', PutAt(leaves, parts, v))
  {
    forall q | q in at' ensures OnTheWay(PutAt(leaves, parts, v), q) {
      assert q in at'.Keys && parts == Init(parts) + [Last(parts)];
      PrefixOfExtended(q, Init(parts), Last(parts));
      if q <= parts {
        assert parts in PutAt(leaves, parts, v) && q < parts;
      } else {
        StillOnTheWay(leaves, parts, v, q);
      }
    }
  }

  lemma LeafFound<V>(at: map<Path, Node<V>>, parts: Path, leaves: map<Path, V>)
    requires parts != [] && [] in at && parts in leaves && Shape(Without(at, parts), leaves)
    ensures Without(at, parts).Values <= at.Values && Without(at, parts)[[]] == at[[]]
    ensures Get(at[[]], parts, Without(at, parts).Values) == Some(Leaf(leaves[parts]))
  {
    WithoutValues(at, parts);
    assert [] + parts == parts;
    GetFinds(Without(at, parts), leaves, [], parts);
  }

  /** One key: walks down its path, making the maps that are missing and replacing values in the way by maps, and puts
      the value at the end, over whatever is there. */
  method Place<V(!new)>(out: Node<V>, parts: Path, v: V, ghost at: map<Path, Node<V>>, ghost leaves: map<Path, V>)
    returns (ghost at': map<Path, Node<V>>)
    requires parts != [] && Shape(at, leaves) && Neat(at, leaves) && at[[]] == out
    modifies at.Values
    ensures fresh(at'.Values - at.Values)
    ensures Shape(at', PutAt(leaves, parts, v)) && Neat(at', PutAt(leaves, parts, v)) && at'[[]] == out
    ensures Get(out, parts, at'.Values) == Some(Leaf(v))
  {
    var next;
    next, at' := Walk(out, parts, at, leaves);
    assert at'[Init(parts)] in at'.Values;
    SetLeaf(next, parts, v, at', leaves);
    LeafFound(at', parts, PutAt(leaves, parts, v));
    at' := Without(at', parts);
    NeatAfterPut(at, at', leaves, parts, v);
  }

  lemma ShapeAtStart<V>(out: Node<V>, at: map<Path, Node<V>>, leaves: map<Path, V>)
    requires out.entries == map[] && at == map[[] := out] && leaves == map[]
    ensures at.Values == {out} && Shape(at, leaves)
  {
    assert at[[]] == out;
  }

  /** One turn of the loop over the keys. */
  method PlaceKey<V(!new)>(out: Node<V>, flat: map<string, V>, order: seq<string>, i: nat, km: KeyMap, delim: char, ghost at: map<Path, Node<V>>)
    returns (ghost at': map<Path, Node<V>>)
    requires PathsNonEmpty(flat, km, delim) && (forall k :: k in order ==> k in flat) && i < |order|
    requires Shape(at, Outcome(order[..i], flat, km, delim)) && Neat(at, Outcome(order[..i], flat, km, delim)) && at[[]] == out
    modifies at.Values
    ensures fresh(at'.Values - at.Values)
    ensures Shape(at', Outcome(order[..i + 1], flat, km, delim)) && Neat(at', Outcome(order[..i + 1], flat, km, delim)) && at'[[]] == out
  {
    OutcomeStep(order, i, flat, km, delim);
    at' := Place(out, PathOf(km, delim, order[i]), flat[order[i]], at, Outcome(order[..i], flat, km, delim));
  }

  /** The loop over the keys. */
  method PlaceAll<V(!new)>(flat: map<string, V>, order: seq<string>, km: KeyMap, delim: char) returns (out: Node<V>, ghost at: map<Path, Node<V>>)
    requires PathsNonEmpty(flat, km, delim) && forall k :: k in order ==> k in flat
    ensures fresh(at.Values) && Shape(at, Outcome(order, flat, km, delim)) && Neat(at, Outcome(order, flat, km, delim)) && at[[]] == out
  {
    out := new Node<V>();
    at := map[[] := out];
    ShapeAtStart(out, at, Outcome([], flat, km, delim));
    for i := 0 to |order|
      invariant Shape(at, Outcome(order[..i], flat, km, delim)) && Neat(at, Outcome(order[..i], flat, km, delim))
      invariant fresh(at.Values) && at[[]] == out
    {
      at := PlaceKey(out, flat, order, i, km, delim, at);
    }
    assert order[..|order|] == order;
  }

  /** koanfUnflattenWithKeyMap, taking the keys in the given order. The values of the result are those the order leads
      to, and it is faithful exactly when the keys are compatible. */
  method UnflattenWithKeyMap<V(!new)>(flat: map<string, V>, order: seq<string>, km: KeyMap, delim: char) returns (out: Node<V>, ghost nodes: set<Node<V>>)
    requires PathsNonEmpty(flat, km, delim) && IsOrder(order, flat)
    ensures fresh(nodes) && Closed(out, nodes)
    ensures Holds(out, nodes, Outcome(order, flat, km, delim))
    ensures Faithful(out, nodes, flat, km, delim) <==> Compatible(flat, km, delim)
  {
    ghost var at;
    out, at := PlaceAll(flat, order, km, delim);
    nodes := at.Values;
    assert at[[]] in nodes;
    ShapeHolds(at, Outcome(order, flat, km, delim));
    FaithfulIffCompatible(out, nodes, order, flat, km, delim);
  }
}
