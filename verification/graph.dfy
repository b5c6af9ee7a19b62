/** `ResourceGraph` (generator/ir/model.rs): an ordered, append-only map from
    resource keys to every node declared under that key. The first node of a
    key is its primary definition; later ones are duplicates kept for
    reporting. The BTreeMap is modelled as an association list sorted
    strictly by the derived key order. */
module Graph {
  import opened Wrappers
  import opened Model

  type Entry = (ResourceKey, seq<ResourceNode>)

  predicate Sorted(es: seq<Entry>) {
    forall i, j :: 0 <= i < j < |es| ==> KeyLess(es[i].0, es[j].0)
  }

  /** Keys strictly increasing, and no key maps to an empty list. */
  predicate Valid(es: seq<Entry>) {
    Sorted(es) && forall i :: 0 <= i < |es| ==> |es[i].1| > 0
  }

  type ResourceGraph = es: seq<Entry> | Valid(es) witness []

  const Empty: ResourceGraph := []

  /** First list stored under `k`. */
  function Find(es: seq<Entry>, k: ResourceKey): Option<seq<ResourceNode>> {
    if |es| == 0 then None
    else if es[0].0 == k then Some(es[0].1)
    else Find(es[1..], k)
  }

  /** `get_all`: every node declared under `k`, in insertion order. */
  function GetAll(g: ResourceGraph, k: ResourceKey): Option<seq<ResourceNode>> {
    Find(g, k)
  }

  /** `get`: the primary (first) node of `k`. */
  function Get(g: ResourceGraph, k: ResourceKey): Option<ResourceNode> {
    match GetAll(g, k)
    case None => None
    case Some(ns) => if |ns| > 0 then Some(ns[0]) else None
  }

  /** `has_duplicates`: more than one node under `k`. */
  predicate HasDuplicates(g: ResourceGraph, k: ResourceKey) {
    match GetAll(g, k)
    case None => false
    case Some(ns) => |ns| > 1
  }

  /** The keys in map (sorted) order. */
  function Keys(g: ResourceGraph): (ks: seq<ResourceKey>)
    ensures |ks| == |g|
    ensures forall i :: 0 <= i < |g| ==> ks[i] == g[i].0
  {
    seq(|g|, i requires 0 <= i < |g| => g[i].0)
  }

  lemma {:induction false} FindIn(es: seq<Entry>, k: ResourceKey)
    ensures Find(es, k).Some? <==> exists i :: 0 <= i < |es| && es[i].0 == k
    ensures Find(es, k).Some? ==> exists i :: 0 <= i < |es| && es[i] == (k, Find(es, k).value)
  {
    if |es| > 0 && es[0].0 != k {
      FindIn(es[1..], k);
      if Find(es, k).Some? {
        var i :| 0 <= i < |es[1..]| && es[1..][i] == (k, Find(es, k).value);
        assert es[i + 1] == (k, Find(es, k).value);
      }
      if exists i :: 0 <= i < |es| && es[i].0 == k {
        var i :| 0 <= i < |es| && es[i].0 == k;
        assert es[1..][i - 1].0 == k;
      }
    }
  }

  /** Every key present in the graph maps to a non-empty list. */
  lemma {:induction false} GetAllNonEmpty(g: ResourceGraph, k: ResourceKey)
    ensures GetAll(g, k).Some? ==> |GetAll(g, k).value| > 0
  {
    FindIn(g, k);
  }

  /** A key below the first key of a sorted list is absent from it. */
  lemma {:induction false} FindBelow(es: seq<Entry>, k: ResourceKey)
    requires Sorted(es) && |es| > 0 && KeyLess(k, es[0].0)
    ensures Find(es, k).None?
  {
    FindIn(es, k);
    if exists i :: 0 <= i < |es| && es[i].0 == k {
      var i :| 0 <= i < |es| && es[i].0 == k;
      if i == 0 {
        KeyLessIrreflexive(k);
      } else {
        KeyLessTransitive(k, es[0].0, es[i].0);
        KeyLessIrreflexive(k);
      }
    }
  }

  function InsertEntries(es: seq<Entry>, k: ResourceKey, n: ResourceNode): (r: seq<Entry>)
    requires Valid(es)
    ensures Valid(r)
    ensures forall i :: 0 <= i < |r| ==> r[i].0 == k || exists j :: 0 <= j < |es| && es[j].0 == r[i].0
    ensures Find(r, k) == Some(Find(es, k).GetOr([]) + [n])
    ensures forall k' :: k' != k ==> Find(r, k') == Find(es, k')
  {
    if |es| == 0 then
      assert [] + [n] == [n];
      [(k, [n])]
    else if es[0].0 == k then
      [(k, es[0].1 + [n])] + es[1..]
    else if KeyLess(k, es[0].0) then
      FindBelow(es, k);
      assert [] + [n] == [n];
      FrontValid(es, k, n);
      [(k, [n])] + es
    else
      KeyLessTotal(k, es[0].0);
      var tail := InsertEntries(es[1..], k, n);
      ConsValid(es, k, tail);
      [es[0]] + tail
  }

  /** A key below the first of a valid list goes in front of it. */
  lemma {:induction false} FrontValid(es: seq<Entry>, k: ResourceKey, n: ResourceNode)
    requires Valid(es) && |es| > 0 && KeyLess(k, es[0].0)
    ensures Valid([(k, [n])] + es)
  {
    var r := [(k, [n])] + es;
    forall i, j | 0 <= i < j < |r| ensures KeyLess(r[i].0, r[j].0) {
      if i == 0 && j > 1 {
        KeyLessTransitive(k, es[0].0, es[j - 1].0);
      }
    }
  }

  /** The first entry of a valid list stays in front of the rest once `k`,
      which sorts after it, is inserted into the rest. */
  lemma {:induction false} ConsValid(es: seq<Entry>, k: ResourceKey, tail: seq<Entry>)
    requires Valid(es) && |es| > 0 && KeyLess(es[0].0, k) && Valid(tail)
    requires forall i :: 0 <= i < |tail| ==> tail[i].0 == k || exists j :: 0 <= j < |es[1..]| && es[1..][j].0 == tail[i].0
    ensures Valid([es[0]] + tail)
    ensures forall i :: 0 <= i < |[es[0]] + tail| ==>
              ([es[0]] + tail)[i].0 == k || exists j :: 0 <= j < |es| && es[j].0 == ([es[0]] + tail)[i].0
  {
    var r := [es[0]] + tail;
    forall i, j | 0 <= i < j < |r| ensures KeyLess(r[i].0, r[j].0) {
      if i == 0 && r[j].0 != k {
        var m :| 0 <= m < |es[1..]| && es[1..][m].0 == r[j].0;
        assert es[m + 1].0 == r[j].0;
      }
    }
    forall i | 0 <= i < |r| && r[i].0 != k ensures exists j :: 0 <= j < |es| && es[j].0 == r[i].0 {
      if i > 0 {
        var m :| 0 <= m < |es[1..]| && es[1..][m].0 == r[i].0;
        assert es[m + 1].0 == r[i].0;
      }
    }
  }

  /** `insert`: appends `n` to the list of `k`, creating it if needed; the
      flag is true exactly when `k` was already present. */
  function Insert(g: ResourceGraph, k: ResourceKey, n: ResourceNode): (r: (ResourceGraph, bool))
    ensures r.1 <==> GetAll(g, k).Some?
    ensures GetAll(r.0, k) == Some(GetAll(g, k).GetOr([]) + [n])
    ensures forall k' :: k' != k ==> GetAll(r.0, k') == GetAll(g, k')
  {
    (InsertEntries(g, k, n), Find(g, k).Some?)
  }

  // ---------------------------------------------------------------------
  // A graph built by inserting a sequence of (key, node) pairs

  /** Inserting each pair in order, starting from the empty graph. */
  function Build(pairs: seq<(ResourceKey, ResourceNode)>): ResourceGraph {
    if |pairs| == 0 then Empty
    else Insert(Build(pairs[..|pairs| - 1]), pairs[|pairs| - 1].0, pairs[|pairs| - 1].1).0
  }

  /** The nodes of the pairs with key `k`, in order: the reference meaning
      of the graph. */
  function NodesWithKey(pairs: seq<(ResourceKey, ResourceNode)>, k: ResourceKey): seq<ResourceNode> {
    if |pairs| == 0 then []
    else
      var init := NodesWithKey(pairs[..|pairs| - 1], k);
      if pairs[|pairs| - 1].0 == k then init + [pairs[|pairs| - 1].1] else init
  }

  /** The graph built from `pairs` stores, under each key, exactly the nodes
      inserted with that key, in insertion order: duplicates are all kept
      and the first one is primary. */
  lemma {:induction false} BuildGetAll(pairs: seq<(ResourceKey, ResourceNode)>, k: ResourceKey)
    ensures GetAll(Build(pairs), k) == (if NodesWithKey(pairs, k) == [] then None else Some(NodesWithKey(pairs, k)))
  {
    if |pairs| > 0 {
      BuildGetAll(pairs[..|pairs| - 1], k);
    }
  }

  /** `get` on a built graph is the first node inserted with the key. */
  lemma {:induction false} BuildGet(pairs: seq<(ResourceKey, ResourceNode)>, k: ResourceKey, i: nat)
    requires i < |pairs| && pairs[i].0 == k
    requires forall j :: 0 <= j < i ==> pairs[j].0 != k
    ensures Get(Build(pairs), k) == Some(pairs[i].1)
  {
    BuildGetAll(pairs, k);
    NodesWithKeyFirst(pairs, k, i);
  }

  /** `get` on a built graph is `None` exactly when no pair has the key. */
  lemma {:induction false} BuildGetAbsent(pairs: seq<(ResourceKey, ResourceNode)>, k: ResourceKey)
    ensures Get(Build(pairs), k).None? <==> forall j :: 0 <= j < |pairs| ==> pairs[j].0 != k
  {
    BuildGetAll(pairs, k);
    NodesWithKeyPresent(pairs, k);
  }

  /** `has_duplicates` on a built graph: more than one pair has the key. */
  lemma {:induction false} BuildHasDuplicates(pairs: seq<(ResourceKey, ResourceNode)>, k: ResourceKey)
    ensures HasDuplicates(Build(pairs), k) <==> |NodesWithKey(pairs, k)| > 1
  {
    BuildGetAll(pairs, k);
  }

  /** After an insertion the key has duplicates exactly when the
      insertion reported one. */
  lemma {:induction false} InsertReportsDuplicate(g: ResourceGraph, k: ResourceKey, n: ResourceNode)
    ensures HasDuplicates(Insert(g, k, n).0, k) <==> Insert(g, k, n).1
  {
    GetAllNonEmpty(g, k);
  }

  lemma {:induction false} NodesWithKeyFirst(pairs: seq<(ResourceKey, ResourceNode)>, k: ResourceKey, i: nat)
    requires i < |pairs| && pairs[i].0 == k
    requires forall j :: 0 <= j < i ==> pairs[j].0 != k
    ensures NodesWithKey(pairs, k) != [] && NodesWithKey(pairs, k)[0] == pairs[i].1
  {
    var init := pairs[..|pairs| - 1];
    if i == |pairs| - 1 {
      NodesWithKeyAbsent(init, k);
    } else {
      NodesWithKeyFirst(init, k, i);
    }
  }

  lemma {:induction false} NodesWithKeyAbsent(pairs: seq<(ResourceKey, ResourceNode)>, k: ResourceKey)
    requires forall j :: 0 <= j < |pairs| ==> pairs[j].0 != k
    ensures NodesWithKey(pairs, k) == []
  {
    if |pairs| > 0 {
      NodesWithKeyAbsent(pairs[..|pairs| - 1], k);
    }
  }

  lemma {:induction false} NodesWithKeyPresent(pairs: seq<(ResourceKey, ResourceNode)>, k: ResourceKey)
    ensures NodesWithKey(pairs, k) != [] <==> exists j :: 0 <= j < |pairs| && pairs[j].0 == k
  {
    if |pairs| > 0 {
      var init := pairs[..|pairs| - 1];
      NodesWithKeyPresent(init, k);
      if exists j :: 0 <= j < |pairs| && pairs[j].0 == k {
        var j :| 0 <= j < |pairs| && pairs[j].0 == k;
        if j < |pairs| - 1 {
          assert init[j].0 == k;
        }
      }
      if exists j :: 0 <= j < |init| && init[j].0 == k {
        var j :| 0 <= j < |init| && init[j].0 == k;
        assert pairs[j].0 == k;
      }
    }
  }

  /** The keys of a built graph are the distinct keys of the pairs, each
      listed once, so the graph has as many keys as there are distinct keys. */
  lemma {:induction false} BuildKeys(pairs: seq<(ResourceKey, ResourceNode)>)
    ensures (set i | 0 <= i < |Build(pairs)| :: Build(pairs)[i].0) == (set j | 0 <= j < |pairs| :: pairs[j].0)
    ensures |Keys(Build(pairs))| == |set j | 0 <= j < |pairs| :: pairs[j].0|
  {
    var g := Build(pairs);
    var gk := set i | 0 <= i < |g| :: g[i].0;
    var pk := set j | 0 <= j < |pairs| :: pairs[j].0;
    forall k ensures k in gk <==> k in pk {
      BuildGetAll(pairs, k);
      NodesWithKeyPresent(pairs, k);
      FindIn(g, k);
    }
    DistinctCount(g);
  }

  /** A strictly sorted list holds as many entries as distinct keys. */
  lemma {:induction false} DistinctCount(es: seq<Entry>)
    requires Sorted(es)
    ensures |es| == |set i | 0 <= i < |es| :: es[i].0|
  {
    if |es| > 0 {
      var tail := es[1..];
      DistinctCount(tail);
      var ts := set i | 0 <= i < |tail| :: tail[i].0;
      var all := set i | 0 <= i < |es| :: es[i].0;
      assert es[0].0 !in ts by {
        if es[0].0 in ts {
          var i :| 0 <= i < |tail| && tail[i].0 == es[0].0;
          assert KeyLess(es[0].0, es[i + 1].0);
          KeyLessIrreflexive(es[0].0);
        }
      }
      assert all == {es[0].0} + ts by {
        forall x | x in all ensures x in {es[0].0} + ts {
          var i :| 0 <= i < |es| && es[i].0 == x;
          if i > 0 {
            assert tail[i - 1].0 == x;
          }
        }
        forall x | x in ts ensures x in all {
          var i :| 0 <= i < |tail| && tail[i].0 == x;
          assert es[i + 1].0 == x;
        }
      }
    }
  }

  /** Inserting each pair in order, starting from `g`. */
  function InsertAll(g: ResourceGraph, pairs: seq<(ResourceKey, ResourceNode)>): ResourceGraph {
    if |pairs| == 0 then g
    else Insert(InsertAll(g, pairs[..|pairs| - 1]), pairs[|pairs| - 1].0, pairs[|pairs| - 1].1).0
  }

  /** Inserting two runs of pairs one after the other is inserting their
      concatenation. */
  lemma {:induction false} InsertAllAppend(g: ResourceGraph, p: seq<(ResourceKey, ResourceNode)>, q: seq<(ResourceKey, ResourceNode)>)
    ensures InsertAll(InsertAll(g, p), q) == InsertAll(g, p + q)
    decreases |q|
  {
    if |q| > 0 {
      assert (p + q)[..|p + q| - 1] == p + q[..|q| - 1];
      InsertAllAppend(g, p, q[..|q| - 1]);
    } else {
      assert p + q == p;
    }
  }

  /** Building is inserting into the empty graph. */
  lemma {:induction false} BuildIsInsertAll(pairs: seq<(ResourceKey, ResourceNode)>)
    ensures InsertAll(Empty, pairs) == Build(pairs)
  {
    if |pairs| > 0 {
      BuildIsInsertAll(pairs[..|pairs| - 1]);
    }
  }
}
