/** The namespace tree of the generated module
    (generator/generation/flat/tree.rs): one node per namespace path, each
    holding its child namespaces in name order and the keys declared
    directly in it. The legacy string module (codegen/generator/basic.rs)
    builds the same shape of tree over (leaf name, value) items, so the
    tree and its insertion are generic in what a node holds. */
module Tree {
  import opened Wrappers
  import opened Model
  import opened Graph

  /** `NamespaceNode`. The children map (a BTreeMap by name) is an
      association list sorted strictly by name; `items` are the entries
      declared in the node itself, in insertion order. */
  datatype NamespaceNode<T> = NamespaceNode(children: seq<(string, NamespaceNode<T>)>, items: seq<T>)

  function EmptyNode<T>(): NamespaceNode<T> {
    NamespaceNode([], [])
  }

  predicate NamesSorted<T>(cs: seq<(string, NamespaceNode<T>)>) {
    forall i, j :: 0 <= i < j < |cs| ==> StringLess(cs[i].0, cs[j].0)
  }

  /** The child named `name`, if any. */
  function Lookup<T>(cs: seq<(string, NamespaceNode<T>)>, name: string): (r: Option<NamespaceNode<T>>)
    ensures r.Some? ==> exists i :: 0 <= i < |cs| && cs[i] == (name, r.value)
    ensures r.None? <==> forall i :: 0 <= i < |cs| ==> cs[i].0 != name
  {
    if |cs| == 0 then None
    else if cs[0].0 == name then Some(cs[0].1)
    else
      var r := Lookup(cs[1..], name);
      assert forall i :: 1 <= i < |cs| ==> cs[i] == cs[1..][i - 1];
      r
  }

  /** A name below the first one of a sorted list is not in it. */
  lemma {:induction false} LookupBelow<T>(cs: seq<(string, NamespaceNode<T>)>, name: string)
    requires NamesSorted(cs) && |cs| > 0 && StringLess(name, cs[0].0)
    ensures Lookup(cs, name).None?
  {
    forall i | 0 <= i < |cs| ensures cs[i].0 != name {
      StringLessIrreflexive(name);
      if i > 0 {
        StringLessTransitive(name, cs[0].0, cs[i].0);
      }
    }
  }

  /** `children.entry(name)` written back: the child replaced in place,
      or inserted at its place in name order. */
  function PutChild<T>(cs: seq<(string, NamespaceNode<T>)>, name: string, c: NamespaceNode<T>): (r: seq<(string, NamespaceNode<T>)>)
    requires NamesSorted(cs)
    ensures NamesSorted(r)
    ensures Lookup(r, name) == Some(c)
    ensures forall n :: n != name ==> Lookup(r, n) == Lookup(cs, n)
    ensures forall i :: 0 <= i < |r| ==> r[i].0 == name || exists j :: 0 <= j < |cs| && cs[j].0 == r[i].0
    decreases |cs|
  {
    if |cs| == 0 then [(name, c)]
    else if cs[0].0 == name then [(name, c)] + cs[1..]
    else if StringLess(name, cs[0].0) then
      LookupBelow(cs, name);
      FrontSorted(cs, name, c);
      [(name, c)] + cs
    else
      StringLessTotal(name, cs[0].0);
      var tail := PutChild(cs[1..], name, c);
      ConsSorted(cs, name, tail);
      [cs[0]] + tail
  }

  /** A name below the first of a sorted list goes in front of it. */
  lemma {:induction false} FrontSorted<T>(cs: seq<(string, NamespaceNode<T>)>, name: string, c: NamespaceNode<T>)
    requires NamesSorted(cs) && |cs| > 0 && StringLess(name, cs[0].0)
    ensures NamesSorted([(name, c)] + cs)
  {
    var r := [(name, c)] + cs;
    forall i, j | 0 <= i < j < |r| ensures StringLess(r[i].0, r[j].0) {
      if i == 0 && j > 1 {
        StringLessTransitive(name, cs[0].0, cs[j - 1].0);
      }
    }
  }

  /** The first entry of a sorted list stays in front of the rest once
      `name`, which sorts after it, is put into the rest. */
  lemma {:induction false} ConsSorted<T>(cs: seq<(string, NamespaceNode<T>)>, name: string, tail: seq<(string, NamespaceNode<T>)>)
    requires NamesSorted(cs) && |cs| > 0 && StringLess(cs[0].0, name) && NamesSorted(tail)
    requires forall i :: 0 <= i < |tail| ==> tail[i].0 == name || exists j :: 0 <= j < |cs[1..]| && cs[1..][j].0 == tail[i].0
    ensures NamesSorted([cs[0]] + tail)
    ensures forall i :: 0 <= i < |[cs[0]] + tail| ==>
              ([cs[0]] + tail)[i].0 == name || exists j :: 0 <= j < |cs| && cs[j].0 == ([cs[0]] + tail)[i].0
  {
    var r := [cs[0]] + tail;
    forall i, j | 0 <= i < j < |r| ensures StringLess(r[i].0, r[j].0) {
      if i == 0 && r[j].0 != name {
        var m :| 0 <= m < |cs[1..]| && cs[1..][m].0 == r[j].0;
        assert cs[m + 1].0 == r[j].0;
      }
    }
    forall i | 0 <= i < |r| && r[i].0 != name ensures exists j :: 0 <= j < |cs| && cs[j].0 == r[i].0 {
      if i > 0 {
        var m :| 0 <= m < |cs[1..]| && cs[1..][m].0 == r[i].0;
        assert cs[m + 1].0 == r[i].0;
      }
    }
  }

  /** Children sorted by name at every level. */
  predicate WellFormed<T>(node: NamespaceNode<T>)
    decreases node
  {
    NamesSorted(node.children) && forall i :: 0 <= i < |node.children| ==> WellFormed(node.children[i].1)
  }

  /** The node reached by following `path` from `node`. */
  function At<T>(node: NamespaceNode<T>, path: seq<string>): Option<NamespaceNode<T>>
    decreases |path|
  {
    if |path| == 0 then Some(node)
    else
      match Lookup(node.children, path[0])
      case None => None
      case Some(c) => At(c, path[1..])
  }

  /** The keys held by the node at `path`, or none when there is no such
      node. */
  function KeysAt<T>(node: NamespaceNode<T>, path: seq<string>): seq<T> {
    match At(node, path)
    case None => []
    case Some(n) => n.items
  }

  lemma {:induction false} EmptyNodeAt<T>(path: seq<string>)
    ensures At(EmptyNode<T>(), path) == (if |path| == 0 then Some(EmptyNode<T>()) else None)
  {
  }

  /** One key of the loop in `build_namespace_tree`: walk down its
      namespace, creating missing nodes, and push the key there. */
  function InsertKey<T>(node: NamespaceNode<T>, path: seq<string>, key: T): (r: NamespaceNode<T>)
    requires WellFormed(node)
    ensures WellFormed(r)
    decreases |path|
  {
    if |path| == 0 then node.(items := node.items + [key])
    else
      var child := Lookup(node.children, path[0]).GetOr(EmptyNode());
      ChildWellFormed(node, path[0]);
      var child' := InsertKey(child, path[1..], key);
      var cs := PutChild(node.children, path[0], child');
      PutChildWellFormed(node.children, path[0], child');
      node.(children := cs)
  }

  lemma {:induction false} ChildWellFormed<T>(node: NamespaceNode<T>, name: string)
    requires WellFormed(node)
    ensures WellFormed(Lookup(node.children, name).GetOr(EmptyNode()))
  {
  }

  lemma {:induction false} PutChildWellFormed<T>(cs: seq<(string, NamespaceNode<T>)>, name: string, c: NamespaceNode<T>)
    requires NamesSorted(cs) && WellFormed(c)
    requires forall i :: 0 <= i < |cs| ==> WellFormed(cs[i].1)
    ensures forall i :: 0 <= i < |PutChild(cs, name, c)| ==> WellFormed(PutChild(cs, name, c)[i].1)
  {
    var r := PutChild(cs, name, c);
    forall i | 0 <= i < |r| ensures WellFormed(r[i].1) {
      if r[i].0 == name {
        LookupFirst(r, i);
      } else {
        var j :| 0 <= j < |cs| && cs[j].0 == r[i].0;
        LookupFirst(r, i);
        LookupFirst(cs, j);
      }
    }
  }

  /** In a sorted list, the child at a position is what lookup finds. */
  lemma {:induction false} LookupFirst<T>(cs: seq<(string, NamespaceNode<T>)>, i: nat)
    requires NamesSorted(cs) && i < |cs|
    ensures Lookup(cs, cs[i].0) == Some(cs[i].1)
    decreases i
  {
    if i > 0 {
      assert StringLess(cs[0].0, cs[i].0);
      StringLessIrreflexive(cs[0].0);
      assert cs[1..][i - 1] == cs[i];
      LookupFirst(cs[1..], i - 1);
    }
  }

  /** Inserting a key adds it at the end of the keys of the node at its
      path and changes the keys of no other node. */
  lemma {:induction false} InsertKeyAt<T>(node: NamespaceNode<T>, path: seq<string>, key: T, q: seq<string>)
    requires WellFormed(node)
    ensures KeysAt(InsertKey(node, path, key), q) == KeysAt(node, q) + (if q == path then [key] else [])
    decreases |path|
  {
    if |path| == 0 {
      InsertKeyHere(node, key, q);
    } else if |q| == 0 {
      InsertKeyRoot(node, path, key);
    } else if q[0] != path[0] {
      InsertKeyOther(node, path, key, q);
    } else {
      var child := Lookup(node.children, path[0]).GetOr(EmptyNode());
      ChildWellFormed(node, path[0]);
      InsertKeyAt(child, path[1..], key, q[1..]);
      InsertKeyAtStep(node, path, key, q);
    }
  }

  /** Inserting below the node leaves its own keys alone. */
  lemma {:induction false} InsertKeyRoot<T>(node: NamespaceNode<T>, path: seq<string>, key: T)
    requires WellFormed(node) && |path| > 0
    ensures InsertKey(node, path, key).items == node.items
  {
    var child := Lookup(node.children, path[0]).GetOr(EmptyNode());
    ChildWellFormed(node, path[0]);
    var child' := InsertKey(child, path[1..], key);
    assert InsertKey(node, path, key) == node.(children := PutChild(node.children, path[0], child'));
  }

  /** The step of `InsertKeyAt` down the child on the key's path. */
  lemma {:induction false} InsertKeyAtStep<T>(node: NamespaceNode<T>, path: seq<string>, key: T, q: seq<string>)
    requires WellFormed(node) && |path| > 0 && |q| > 0 && q[0] == path[0]
    requires WellFormed(Lookup(node.children, path[0]).GetOr(EmptyNode()))
    requires var child := Lookup(node.children, path[0]).GetOr(EmptyNode());
             KeysAt(InsertKey(child, path[1..], key), q[1..]) == KeysAt(child, q[1..]) + (if q[1..] == path[1..] then [key] else [])
    ensures KeysAt(InsertKey(node, path, key), q) == KeysAt(node, q) + (if q == path then [key] else [])
  {
    var child := Lookup(node.children, path[0]).GetOr(EmptyNode());
    InsertKeySame(node, path, key, q);
    EmptyNodeAt<T>(q[1..]);
    assert KeysAt(node, q) == KeysAt(child, q[1..]);
    SameHead(q, path);
  }

  lemma {:induction false} SameHead(q: seq<string>, path: seq<string>)
    requires |q| > 0 && |path| > 0 && q[0] == path[0]
    ensures q == path <==> q[1..] == path[1..]
  {
    if q[1..] == path[1..] {
      assert q == [q[0]] + q[1..] && path == [path[0]] + path[1..];
    }
  }

  /** Inserting a key creates exactly the nodes on its namespace path. */
  lemma {:induction false} InsertKeyNodes<T>(node: NamespaceNode<T>, path: seq<string>, key: T, q: seq<string>)
    requires WellFormed(node)
    ensures At(InsertKey(node, path, key), q).Some? <==> At(node, q).Some? || q <= path
    decreases |path|
  {
    if |path| == 0 {
      InsertKeyHere(node, key, q);
      assert q <= path <==> |q| == 0;
    } else if |q| == 0 {
      assert q <= path;
    } else {
      PrefixCons(q, path);
      if q[0] != path[0] {
        InsertKeyOther(node, path, key, q);
      } else {
        var child := Lookup(node.children, path[0]).GetOr(EmptyNode());
        ChildWellFormed(node, path[0]);
        InsertKeySame(node, path, key, q);
        InsertKeyNodes(child, path[1..], key, q[1..]);
        EmptyNodeAt<T>(q[1..]);
      }
    }
  }

  lemma {:induction false} PrefixCons(q: seq<string>, path: seq<string>)
    requires |q| > 0 && |path| > 0
    ensures q <= path <==> q[0] == path[0] && q[1..] <= path[1..]
  {
    if q[0] == path[0] && q[1..] <= path[1..] {
      assert q == [q[0]] + q[1..] && path == [path[0]] + path[1..];
    }
  }

  /** A key inserted at the node itself leaves every node in place. */
  lemma {:induction false} InsertKeyHere<T>(node: NamespaceNode<T>, key: T, q: seq<string>)
    requires WellFormed(node)
    ensures At(InsertKey(node, [], key), q) == (if |q| == 0 then Some(InsertKey(node, [], key)) else At(node, q))
  {
  }

  /** Inserting below one child leaves the nodes under the others alone. */
  lemma {:induction false} InsertKeyOther<T>(node: NamespaceNode<T>, path: seq<string>, key: T, q: seq<string>)
    requires WellFormed(node) && |path| > 0 && |q| > 0 && q[0] != path[0]
    ensures At(InsertKey(node, path, key), q) == At(node, q)
  {
    var child := Lookup(node.children, path[0]).GetOr(EmptyNode());
    ChildWellFormed(node, path[0]);
    var child' := InsertKey(child, path[1..], key);
    assert InsertKey(node, path, key) == node.(children := PutChild(node.children, path[0], child'));
  }

  /** Below the child on the key's path, the nodes are those of the child
      with the key inserted. */
  lemma {:induction false} InsertKeySame<T>(node: NamespaceNode<T>, path: seq<string>, key: T, q: seq<string>)
    requires WellFormed(node) && |path| > 0 && |q| > 0 && q[0] == path[0]
    requires WellFormed(Lookup(node.children, path[0]).GetOr(EmptyNode()))
    ensures At(InsertKey(node, path, key), q) == At(InsertKey(Lookup(node.children, path[0]).GetOr(EmptyNode()), path[1..], key), q[1..])
  {
    var child := Lookup(node.children, path[0]).GetOr(EmptyNode());
    var child' := InsertKey(child, path[1..], key);
    assert InsertKey(node, path, key) == node.(children := PutChild(node.children, path[0], child'));
  }

  /** Inserting every key in order, starting from an empty root. */
  function BuildTree(keys: seq<ResourceKey>): (r: NamespaceNode<ResourceKey>)
    ensures WellFormed(r)
    decreases |keys|
  {
    if |keys| == 0 then EmptyNode()
    else InsertKey(BuildTree(keys[..|keys| - 1]), keys[|keys| - 1].namespace, keys[|keys| - 1])
  }

  /** `build_namespace_tree`: the graph's keys in map order, each once,
      however many nodes it holds. */
  function BuildNamespaceTree(g: ResourceGraph): NamespaceNode<ResourceKey> {
    BuildTree(Keys(g))
  }

  /** The keys declared in namespace `q`, in order. */
  function KeysIn(keys: seq<ResourceKey>, q: seq<string>): seq<ResourceKey>
    decreases |keys|
  {
    if |keys| == 0 then []
    else KeysIn(keys[..|keys| - 1], q) + (if keys[|keys| - 1].namespace == q then [keys[|keys| - 1]] else [])
  }

  /** The node at `q` holds exactly the keys whose namespace is `q`, in
      order. */
  lemma {:induction false} BuildTreeKeys(keys: seq<ResourceKey>, q: seq<string>)
    ensures KeysAt(BuildTree(keys), q) == KeysIn(keys, q)
    decreases |keys|
  {
    if |keys| == 0 {
      EmptyNodeAt<ResourceKey>(q);
    } else {
      var init := keys[..|keys| - 1];
      BuildTreeKeys(init, q);
      InsertKeyAt(BuildTree(init), keys[|keys| - 1].namespace, keys[|keys| - 1], q);
    }
  }

  /** A node exists at `q` exactly when `q` is the root or a prefix of some
      key's namespace: every node lies on the namespace path of a key. */
  lemma {:induction false} BuildTreeNodes(keys: seq<ResourceKey>, q: seq<string>)
    ensures At(BuildTree(keys), q).Some? <==> |q| == 0 || exists i :: 0 <= i < |keys| && q <= keys[i].namespace
    decreases |keys|
  {
    if |keys| == 0 {
      EmptyNodeAt<ResourceKey>(q);
    } else {
      var init := keys[..|keys| - 1];
      var last := keys[|keys| - 1];
      BuildTreeNodes(init, q);
      InsertKeyNodes(BuildTree(init), last.namespace, last, q);
      if exists i :: 0 <= i < |keys| && q <= keys[i].namespace {
        var i :| 0 <= i < |keys| && q <= keys[i].namespace;
        if i < |keys| - 1 {
          assert init[i] == keys[i];
        }
      }
      forall i | 0 <= i < |init| && q <= init[i].namespace ensures q <= keys[i].namespace {
        assert init[i] == keys[i];
      }
    }
  }

  /** The number of times `k` occurs in `ks`. */
  function Occurrences(ks: seq<ResourceKey>, k: ResourceKey): nat {
    multiset(ks)[k]
  }

  lemma {:induction false} KeysInCount(keys: seq<ResourceKey>, q: seq<string>, k: ResourceKey)
    ensures Occurrences(KeysIn(keys, q), k) == (if k.namespace == q then Occurrences(keys, k) else 0)
    decreases |keys|
  {
    if |keys| > 0 {
      var init := keys[..|keys| - 1];
      KeysInCount(init, q, k);
      assert keys == init + [keys[|keys| - 1]];
    }
  }

  /** Graph keys are distinct, so each occurs once in the key list. */
  lemma {:induction false} KeysOnce(g: ResourceGraph, i: nat)
    requires i < |g|
    ensures Occurrences(Keys(g), g[i].0) == 1
  {
    var ks := Keys(g);
    var k := g[i].0;
    assert ks == ks[..i] + [k] + ks[i + 1..];
    KeyLessIrreflexive(k);
    forall j | 0 <= j < i ensures ks[..i][j] != k {
      assert KeyLess(g[j].0, g[i].0);
    }
    var tail := ks[i + 1..];
    forall j | 0 <= j < |tail| ensures tail[j] != k {
      assert tail[j] == ks[i + 1 + j];
      assert KeyLess(g[i].0, g[i + 1 + j].0);
    }
    assert k !in ks[..i] && k !in tail;
  }

  /** Every key of the graph appears exactly once in the keys of the node
      reached by its namespace, and in no other node; a key stored with
      duplicates still appears once. */
  lemma {:induction false} KeyPlacedOnce(g: ResourceGraph, k: ResourceKey, q: seq<string>)
    requires GetAll(g, k).Some?
    ensures Occurrences(KeysAt(BuildNamespaceTree(g), q), k) == (if q == k.namespace then 1 else 0)
  {
    FindIn(g, k);
    var i :| 0 <= i < |g| && g[i].0 == k;
    KeysOnce(g, i);
    BuildTreeKeys(Keys(g), q);
    KeysInCount(Keys(g), q, k);
  }

  // ---------------------------------------------------------------------
  // Sorting

  /** Names never decrease along the list. */
  predicate SortedByName(ks: seq<ResourceKey>) {
    forall i, j :: 0 <= i < j < |ks| ==> !StringLess(ks[j].name, ks[i].name)
  }

  /** No name in `ks` is below `name`. */
  predicate AllAtLeast(name: string, ks: seq<ResourceKey>) {
    forall i :: 0 <= i < |ks| ==> !StringLess(ks[i].name, name)
  }

  lemma {:induction false} SortedCons(x: ResourceKey, t: seq<ResourceKey>)
    requires SortedByName(t) && AllAtLeast(x.name, t)
    ensures SortedByName([x] + t)
  {
    var r := [x] + t;
    forall i, j | 0 <= i < j < |r| ensures !StringLess(r[j].name, r[i].name) {
      if i > 0 {
        assert r[i] == t[i - 1] && r[j] == t[j - 1];
      }
    }
  }

  /** Inserts `k` before the first key whose name is not smaller. Keys
      are inserted from the back of the list, so a key goes in front of
      the equal names that followed it: the insertion step of a stable
      sort. */
  function InsertByName(k: ResourceKey, ks: seq<ResourceKey>): (r: seq<ResourceKey>)
    ensures multiset(r) == multiset(ks) + multiset{k}
    decreases |ks|
  {
    if |ks| == 0 then [k]
    else if !StringLess(ks[0].name, k.name) then [k] + ks
    else
      assert ks == [ks[0]] + ks[1..];
      [ks[0]] + InsertByName(k, ks[1..])
  }

  lemma {:induction false} NotLessOfLess(a: string, b: string)
    requires StringLess(a, b)
    ensures !StringLess(b, a)
  {
    StringLessIrreflexive(a);
    if StringLess(b, a) {
      StringLessTransitive(a, b, a);
    }
  }

  lemma {:induction false} NameOrderTrans(a: string, b: string, c: string)
    requires !StringLess(b, a) && !StringLess(c, b)
    ensures !StringLess(c, a)
  {
    StringLessTotal(a, b);
    StringLessTotal(b, c);
    if StringLess(c, a) {
      if a != b {
        StringLessTransitive(c, a, b);
      }
    }
  }

  /** A lower bound of `k` and of `ks` bounds the insertion. */
  lemma {:induction false} InsertByNameAtLeast(n: string, k: ResourceKey, ks: seq<ResourceKey>)
    requires AllAtLeast(n, ks) && !StringLess(k.name, n)
    ensures AllAtLeast(n, InsertByName(k, ks))
    decreases |ks|
  {
    if |ks| > 0 && StringLess(ks[0].name, k.name) {
      InsertByNameAtLeast(n, k, ks[1..]);
    }
  }

  lemma {:induction false} InsertByNameSorted(k: ResourceKey, ks: seq<ResourceKey>)
    requires SortedByName(ks)
    ensures SortedByName(InsertByName(k, ks))
    decreases |ks|
  {
    if |ks| == 0 {
    } else if !StringLess(ks[0].name, k.name) {
      forall i | 0 <= i < |ks| ensures !StringLess(ks[i].name, k.name) {
        if i > 0 {
          NameOrderTrans(k.name, ks[0].name, ks[i].name);
        }
      }
      SortedCons(k, ks);
    } else {
      InsertByNameSorted(k, ks[1..]);
      NotLessOfLess(ks[0].name, k.name);
      InsertByNameAtLeast(ks[0].name, k, ks[1..]);
      SortedCons(ks[0], InsertByName(k, ks[1..]));
    }
  }

  /** `resource_keys.sort_by(name)`: a stable sort on names. */
  function SortKeys(ks: seq<ResourceKey>): (r: seq<ResourceKey>)
    ensures multiset(r) == multiset(ks)
    decreases |ks|
  {
    if |ks| == 0 then []
    else
      assert ks == [ks[0]] + ks[1..];
      InsertByName(ks[0], SortKeys(ks[1..]))
  }

  lemma {:induction false} SortKeysSorted(ks: seq<ResourceKey>)
    ensures SortedByName(SortKeys(ks))
    decreases |ks|
  {
    if |ks| > 0 {
      SortKeysSorted(ks[1..]);
      InsertByNameSorted(ks[0], SortKeys(ks[1..]));
    }
  }

  /** An already ordered list is left as it is, equal names included:
      the sort is stable. */
  lemma {:induction false} SortKeysOfSorted(ks: seq<ResourceKey>)
    requires SortedByName(ks)
    ensures SortKeys(ks) == ks
    decreases |ks|
  {
    if |ks| > 0 {
      SortKeysOfSorted(ks[1..]);
      assert ks == [ks[0]] + ks[1..];
    }
  }

  /** `sort_namespace_tree`: sorts the keys of every node. */
  function SortTree(node: NamespaceNode<ResourceKey>): (r: NamespaceNode<ResourceKey>)
    decreases node
  {
    NamespaceNode(
      seq(|node.children|, i requires 0 <= i < |node.children| => (node.children[i].0, SortTree(node.children[i].1))),
      SortKeys(node.items))
  }

  lemma {:induction false} LookupSorted(cs: seq<(string, NamespaceNode<ResourceKey>)>, name: string, r: seq<(string, NamespaceNode<ResourceKey>)>)
    requires |r| == |cs|
    requires forall i :: 0 <= i < |cs| ==> r[i] == (cs[i].0, SortTree(cs[i].1))
    ensures Lookup(r, name).Some? == Lookup(cs, name).Some?
    ensures Lookup(cs, name).Some? ==> Lookup(r, name).value == SortTree(Lookup(cs, name).value)
    decreases |cs|
  {
    if |cs| > 0 && cs[0].0 != name {
      LookupSorted(cs[1..], name, r[1..]);
    }
  }

  /** Sorting keeps every node where it was, with the same keys, now in
      name order. */
  lemma {:induction false} SortTreeAt(node: NamespaceNode<ResourceKey>, q: seq<string>)
    ensures At(SortTree(node), q).Some? == At(node, q).Some?
    ensures multiset(KeysAt(SortTree(node), q)) == multiset(KeysAt(node, q))
    ensures SortedByName(KeysAt(SortTree(node), q))
    decreases |q|
  {
    if |q| == 0 {
      SortKeysSorted(node.items);
    } else {
      LookupSorted(node.children, q[0], SortTree(node).children);
      match Lookup(node.children, q[0])
      case None =>
      case Some(c) =>
        SortTreeAt(c, q[1..]);
    }
  }

  /** After sorting, the node at a key's namespace still holds the key. */
  lemma {:induction false} SortedTreeHoldsKey(g: ResourceGraph, k: ResourceKey)
    requires GetAll(g, k).Some?
    ensures At(SortTree(BuildNamespaceTree(g)), k.namespace).Some?
    ensures k in At(SortTree(BuildNamespaceTree(g)), k.namespace).value.items
  {
    var tree := BuildNamespaceTree(g);
    var q := k.namespace;
    FindIn(g, k);
    var i :| 0 <= i < |g| && g[i].0 == k;
    assert Keys(g)[i] == k;
    BuildTreeNodes(Keys(g), q);
    KeyPlacedOnce(g, k, q);
    SortTreeAt(tree, q);
    assert k in multiset(KeysAt(SortTree(tree), q));
  }
}
