/** The dependency graph of updatable items and its flattening.

    An item is an identity (`Id`) carrying an optional update interval and an
    ordered list of direct dependencies. The graph is acyclic by contract; the
    model makes that contract explicit through a rank that strictly decreases
    from every item to each of its direct dependencies. */
module DependencyGraph {
  import opened Outcomes

  type Id = nat

  /** The static part of an item: its update interval and its direct dependencies. */
  datatype Node = Node(interval: Option<int>, deps: seq<Id>)

  datatype Graph = Graph(nodes: map<Id, Node>, rank: map<Id, nat>)

  /** Every dependency is an item of the graph of strictly smaller rank, so the
      graph has no cycle. */
  predicate Valid(g: Graph)
  {
    forall x :: x in g.nodes ==>
      x in g.rank &&
      forall c :: c in g.nodes[x].deps ==> c in g.nodes && c in g.rank && g.rank[c] < g.rank[x]
  }

  /** `d` is a (possibly transitive) dependency of `x`. */
  predicate DependsOn(g: Graph, x: Id, d: Id)
    requires Valid(g) && x in g.nodes
    decreases g.rank[x]
  {
    exists c :: c in g.nodes[x].deps && (c == d || DependsOn(g, c, d))
  }

  /** Every element of `list` is an item of `g`. */
  predicate AllIn(g: Graph, list: seq<Id>)
  {
    forall i :: 0 <= i < |list| ==> list[i] in g.nodes
  }

  /** Dependency-before-dependent order: every transitive dependency of the
      item at position `i` occurs somewhere before position `i`. */
  ghost predicate DepsBefore(g: Graph, list: seq<Id>)
    requires Valid(g) && AllIn(g, list)
  {
    forall i :: 0 <= i < |list| ==>
      forall d :: DependsOn(g, list[i], d) ==> d in list[..i]
  }

  lemma {:induction false} DependsOnFacts(g: Graph, x: Id, d: Id)
    requires Valid(g) && x in g.nodes && DependsOn(g, x, d)
    ensures d in g.nodes && d in g.rank && g.rank[d] < g.rank[x]
    decreases g.rank[x]
  {
    var c :| c in g.nodes[x].deps && (c == d || DependsOn(g, c, d));
    if c != d {
      DependsOnFacts(g, c, d);
    }
  }

  /** No item depends on itself. */
  lemma NoSelfDependency(g: Graph, x: Id)
    requires Valid(g) && x in g.nodes
    ensures !DependsOn(g, x, x)
  {
    if DependsOn(g, x, x) {
      DependsOnFacts(g, x, x);
    }
  }

  /** Appends each element of `sub` that is not yet present, in order. This is
      the inner loop of the flattening, whose membership test also sees the
      elements appended earlier in the same loop. */
  function AppendNew(acc: seq<Id>, sub: seq<Id>): seq<Id>
    decreases |sub|
  {
    if sub == [] then acc
    else AppendNew(if sub[0] in acc then acc else acc + [sub[0]], sub[1..])
  }

  /** The flattened transitive dependencies of `x`: for each direct dependency
      in order, first its own flattening minus what is already present, then
      the direct dependency itself, whether or not it is already present. */
  function Flatten(g: Graph, x: Id): seq<Id>
    requires Valid(g) && x in g.nodes
    decreases g.rank[x], 1, 0
  {
    FlattenPrefix(g, x, |g.nodes[x].deps|)
  }

  /** The flattening after the first `n` direct dependencies of `x`. */
  function FlattenPrefix(g: Graph, x: Id, n: nat): seq<Id>
    requires Valid(g) && x in g.nodes && n <= |g.nodes[x].deps|
    decreases g.rank[x], 0, n
  {
    if n == 0 then []
    else
      var c := g.nodes[x].deps[n - 1];
      AppendNew(FlattenPrefix(g, x, n - 1), Flatten(g, c)) + [c]
  }

  /** `AppendNew` keeps `acc` as a prefix, adds exactly the missing elements of
      `sub`, and never adds an element that is already present. */
  lemma {:induction false} AppendNewShape(acc: seq<Id>, sub: seq<Id>)
    ensures |AppendNew(acc, sub)| >= |acc|
    ensures AppendNew(acc, sub)[..|acc|] == acc
    ensures forall y :: y in AppendNew(acc, sub) <==> y in acc || y in sub
    ensures forall i, j :: 0 <= i < j < |AppendNew(acc, sub)| && |acc| <= j ==>
              AppendNew(acc, sub)[i] != AppendNew(acc, sub)[j]
    decreases |sub|
  {
    if sub != [] {
      var next := if sub[0] in acc then acc else acc + [sub[0]];
      AppendNewShape(next, sub[1..]);
      var r := AppendNew(acc, sub);
      assert r == AppendNew(next, sub[1..]);
      assert r[..|next|] == next;
      assert r[..|acc|] == next[..|acc|];
      assert sub == [sub[0]] + sub[1..];
      forall i, j | 0 <= i < j < |r| && |acc| <= j
        ensures r[i] != r[j]
      {
        if j < |next| {
          assert j == |acc| && next == acc + [sub[0]];
          assert r[j] == sub[0] && r[i] == acc[i];
        }
      }
    }
  }

  /** Membership of the prefix flattening. */
  lemma {:induction false} FlattenPrefixMembers(g: Graph, x: Id, n: nat)
    requires Valid(g) && x in g.nodes && n <= |g.nodes[x].deps|
    ensures forall d :: d in FlattenPrefix(g, x, n) <==>
              exists i :: 0 <= i < n && (g.nodes[x].deps[i] == d || DependsOn(g, g.nodes[x].deps[i], d))
    decreases g.rank[x], 0, n
  {
    if n > 0 {
      var deps := g.nodes[x].deps;
      var c := deps[n - 1];
      FlattenPrefixMembers(g, x, n - 1);
      FlattenMembers(g, c);
      AppendNewShape(FlattenPrefix(g, x, n - 1), Flatten(g, c));
      forall d | exists i :: 0 <= i < n && (deps[i] == d || DependsOn(g, deps[i], d))
        ensures d in FlattenPrefix(g, x, n)
      {
        var i :| 0 <= i < n && (deps[i] == d || DependsOn(g, deps[i], d));
        if i < n - 1 {
          assert d in FlattenPrefix(g, x, n - 1);
        }
      }
    }
  }

  /** The flattening holds exactly the transitive dependencies of `x`. */
  lemma {:induction false} FlattenMembers(g: Graph, x: Id)
    requires Valid(g) && x in g.nodes
    ensures forall d :: d in Flatten(g, x) <==> DependsOn(g, x, d)
    decreases g.rank[x], 1, 0
  {
    var deps := g.nodes[x].deps;
    FlattenPrefixMembers(g, x, |deps|);
    forall d | DependsOn(g, x, d)
      ensures d in Flatten(g, x)
    {
      var c :| c in deps && (c == d || DependsOn(g, c, d));
      var i :| 0 <= i < |deps| && deps[i] == c;
    }
    forall d | d in Flatten(g, x)
      ensures DependsOn(g, x, d)
    {
      assert d in FlattenPrefix(g, x, |deps|);
      var i :| 0 <= i < |deps| && (deps[i] == d || DependsOn(g, deps[i], d));
      assert deps[i] in deps;
    }
  }

  /** The flattening lists only items of the graph and never `x` itself. */
  lemma FlattenExcludesSelf(g: Graph, x: Id)
    requires Valid(g) && x in g.nodes
    ensures AllIn(g, Flatten(g, x))
    ensures x !in Flatten(g, x)
  {
    FlattenMembers(g, x);
    NoSelfDependency(g, x);
    forall i | 0 <= i < |Flatten(g, x)|
      ensures Flatten(g, x)[i] in g.nodes
    {
      DependsOnFacts(g, x, Flatten(g, x)[i]);
    }
  }

  /** Appending an item whose dependencies all precede it keeps the order. */
  lemma AppendOneOrder(g: Graph, list: seq<Id>, y: Id)
    requires Valid(g) && AllIn(g, list) && DepsBefore(g, list) && y in g.nodes
    requires forall d :: DependsOn(g, y, d) ==> d in list
    ensures AllIn(g, list + [y]) && DepsBefore(g, list + [y])
  {
    var r := list + [y];
    forall i | 0 <= i < |r|
      ensures forall d :: DependsOn(g, r[i], d) ==> d in r[..i]
    {
      if i < |list| {
        assert r[..i] == list[..i];
      } else {
        assert r[..i] == list;
      }
    }
  }

  /** `AppendNew` keeps the dependency-before-dependent order when every
      dependency of an element of `sub` is in `acc` or earlier in `sub`. */
  lemma {:induction false} AppendNewOrder(g: Graph, acc: seq<Id>, sub: seq<Id>)
    requires Valid(g) && AllIn(g, acc) && AllIn(g, sub)
    requires DepsBefore(g, acc)
    requires forall j :: 0 <= j < |sub| ==>
               forall d :: DependsOn(g, sub[j], d) ==> d in acc || d in sub[..j]
    ensures AllIn(g, AppendNew(acc, sub)) && DepsBefore(g, AppendNew(acc, sub))
    decreases |sub|
  {
    if sub != [] {
      var next := if sub[0] in acc then acc else acc + [sub[0]];
      if sub[0] !in acc {
        assert sub[..0] == [];
        AppendOneOrder(g, acc, sub[0]);
      }
      var rest := sub[1..];
      forall j | 0 <= j < |rest|
        ensures forall d :: DependsOn(g, rest[j], d) ==> d in next || d in rest[..j]
      {
        assert rest[j] == sub[j + 1];
        forall d | DependsOn(g, rest[j], d)
          ensures d in next || d in rest[..j]
        {
          assert d in acc || d in sub[..j + 1];
          if d !in acc && d != sub[0] {
            assert sub[..j + 1] == [sub[0]] + rest[..j];
          }
        }
      }
      AppendNewOrder(g, next, rest);
    }
  }

  lemma {:induction false} FlattenPrefixOrder(g: Graph, x: Id, n: nat)
    requires Valid(g) && x in g.nodes && n <= |g.nodes[x].deps|
    ensures AllIn(g, FlattenPrefix(g, x, n)) && DepsBefore(g, FlattenPrefix(g, x, n))
    decreases g.rank[x], 0, n
  {
    if n > 0 {
      var c := g.nodes[x].deps[n - 1];
      var prev := FlattenPrefix(g, x, n - 1);
      var sub := Flatten(g, c);
      FlattenPrefixOrder(g, x, n - 1);
      FlattenOrder(g, c);
      FlattenMembers(g, c);
      AppendNewOrder(g, prev, sub);
      AppendNewShape(prev, sub);
      var a := AppendNew(prev, sub);
      assert a + [c] == FlattenPrefix(g, x, n);
      AppendOneOrder(g, a, c);
    }
  }

  /** The flattening lists dependencies before their dependents. */
  lemma {:induction false} FlattenOrder(g: Graph, x: Id)
    requires Valid(g) && x in g.nodes
    ensures AllIn(g, Flatten(g, x)) && DepsBefore(g, Flatten(g, x))
    decreases g.rank[x], 1, 0
  {
    FlattenPrefixOrder(g, x, |g.nodes[x].deps|);
  }

  /** An element occurs twice in a prefix flattening only if it is a direct
      dependency: sub-dependencies are de-duplicated, direct dependencies not. */
  lemma {:induction false} FlattenPrefixRepeats(g: Graph, x: Id, n: nat)
    requires Valid(g) && x in g.nodes && n <= |g.nodes[x].deps|
    ensures forall i, j ::
              (0 <= i < j < |FlattenPrefix(g, x, n)| && FlattenPrefix(g, x, n)[i] == FlattenPrefix(g, x, n)[j]) ==>
              FlattenPrefix(g, x, n)[j] in g.nodes[x].deps[..n]
  {
    if n > 0 {
      var deps := g.nodes[x].deps;
      var c := deps[n - 1];
      var prev := FlattenPrefix(g, x, n - 1);
      FlattenPrefixRepeats(g, x, n - 1);
      AppendNewShape(prev, Flatten(g, c));
      var a := AppendNew(prev, Flatten(g, c));
      var r := a + [c];
      assert deps[..n] == deps[..n - 1] + [c];
      forall i, j | 0 <= i < j < |r| && r[i] == r[j]
        ensures r[j] in deps[..n]
      {
        if j < |prev| {
          assert r[i] == prev[i] && r[j] == prev[j];
        }
      }
    }
  }

  /** The only items the flattening may repeat are direct dependencies of `x`. */
  lemma FlattenRepeatsAreDirect(g: Graph, x: Id)
    requires Valid(g) && x in g.nodes
    ensures forall i, j :: 0 <= i < j < |Flatten(g, x)| && Flatten(g, x)[i] == Flatten(g, x)[j] ==>
              Flatten(g, x)[j] in g.nodes[x].deps
  {
    var deps := g.nodes[x].deps;
    FlattenPrefixRepeats(g, x, |deps|);
    assert deps[..|deps|] == deps;
  }

  /** The items one cycle visits: the flattening of `root` with `root` itself
      appended last. It holds exactly `root` and its transitive dependencies,
      in dependency-before-dependent order. */
  function UpdateList(g: Graph, root: Id): (r: seq<Id>)
    requires Valid(g) && root in g.nodes
    ensures |r| > 0 && r[|r| - 1] == root
    ensures forall y :: y in r <==> y == root || DependsOn(g, root, y)
    ensures AllIn(g, r) && DepsBefore(g, r)
  {
    var f := Flatten(g, root);
    FlattenMembers(g, root);
    FlattenOrder(g, root);
    var r := f + [root];
    assert DepsBefore(g, r) by {
      forall i | 0 <= i < |r|
        ensures forall d :: DependsOn(g, r[i], d) ==> d in r[..i]
      {
        if i < |f| {
          assert r[..i] == f[..i];
        } else {
          assert r[..i] == f;
        }
      }
    }
    r
  }

  /** A concrete graph where a direct dependency is repeated: the root 0
      depends on [1, 2] and item 1 depends on [2]. Item 2 is reached through
      item 1 first and is then appended again as a direct dependency of 0. */
  lemma FlattenMayRepeatDirectDependency()
    ensures var g := Graph(map[0 := Node(None, [1, 2]), 1 := Node(None, [2]), 2 := Node(None, [])],
                           map[0 := 2, 1 := 1, 2 := 0]);
            Valid(g) && Flatten(g, 0) == [2, 1, 2]
  {
    var g := Graph(map[0 := Node(None, [1, 2]), 1 := Node(None, [2]), 2 := Node(None, [])],
                   map[0 := 2, 1 := 1, 2 := 0]);
    assert Valid(g);
    assert Flatten(g, 2) == [];
    assert FlattenPrefix(g, 1, 1) == AppendNew([], []) + [2];
    assert Flatten(g, 1) == [2];
    assert AppendNew([], [2]) == [2];
    assert FlattenPrefix(g, 0, 1) == [2, 1];
    assert AppendNew([2, 1], []) == [2, 1];
    assert FlattenPrefix(g, 0, 2) == [2, 1, 2];
  }
}
