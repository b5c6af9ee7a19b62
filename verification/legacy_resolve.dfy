/** Build-time resolution of references and interpolated strings in the
    legacy pipeline (codegen/generator/basic.rs). A reference is followed
    through other references and interpolations until a plain string is
    reached; a reference met again on the way is a cycle and resolves to
    nothing.

    The source threads one mutable `visited` set through the recursion,
    inserting a reference's key before following it and removing it after,
    so every call returns with the set it was given. The model passes the
    set down unchanged instead. */
module LegacyResolve {
  import opened Wrappers
  import opened Text
  import opened LegacyTypes
  import opened LegacyReferences

  /** The key under which a reference is remembered while it is being
      followed: `type:key`. */
  function VisitKey(ty: string, key: string): string {
    ty + ":" + key
  }

  /** The keys of every resource that exists: the references that can be
      followed at all. */
  ghost function Existing(res: Resources): set<string> {
    set ty, i | ty in res && 0 <= i < |res[ty]| :: VisitKey(ty, res[ty][i].0)
  }

  lemma {:induction false} LookupExisting(res: Resources, ty: string, key: string)
    requires Lookup(res, ty, key).Some?
    ensures VisitKey(ty, key) in Existing(res)
  {
    var i := FindIndex(res[ty], key).value;
    assert VisitKey(ty, res[ty][i].0) in Existing(res);
  }

  lemma {:induction false} FewerUnvisited(e: set<string>, visited: set<string>, k: string)
    requires k in e && k !in visited
    ensures |e - (visited + {k})| < |e - visited|
  {
    assert e - (visited + {k}) == (e - visited) - {k};
  }

  /** `resolve_string_value`: the text a reference stands for, or `None`
      when it is a cycle, names nothing, or names a value that is not
      text. */
  function Resolve(ty: string, key: string, res: Resources, visited: set<string>): (r: Option<string>)
    ensures VisitKey(ty, key) in visited ==> r.None?
    ensures Lookup(res, ty, key).None? ==> r.None?
    decreases |Existing(res) - visited|, 0, 0
  {
    var k := VisitKey(ty, key);
    if k in visited then None
    else match Lookup(res, ty, key)
      case None => None
      case Some(v) =>
        LookupExisting(res, ty, key);
        FewerUnvisited(Existing(res), visited, k);
        Extract(v, res, visited + {k})
  }

  /** `extract_string_from_value`. */
  function Extract(v: Value, res: Resources, visited: set<string>): Option<string>
    decreases |Existing(res) - visited|, 2, 0
  {
    match v
    case StringValue(s) => Some(s)
    case Reference(ty, key) => Resolve(ty, key, res, visited)
    case Interpolated(parts) => ResolveParts(parts, res, visited)
    case _ => None
  }

  /** `resolve_interpolation_parts`: text is kept, each reference is
      replaced by what it resolves to, and one that does not resolve is
      written `@key`. The result is always present. */
  function ResolveParts(parts: seq<Part>, res: Resources, visited: set<string>): (r: Option<string>)
    ensures r.Some?
    decreases |Existing(res) - visited|, 1, |parts|
  {
    if |parts| == 0 then Some("")
    else Some(PartValue(parts[0], res, visited) + ResolveParts(parts[1..], res, visited).value)
  }

  /** The text one part resolves to. */
  function PartValue(p: Part, res: Resources, visited: set<string>): string
    decreases |Existing(res) - visited|, 1, 0
  {
    match p
    case TextPart(t) => t
    case RefPart(ty, key) => Resolve(ty, key, res, visited).GetOr("@" + key)
  }

  /** Resolution distributes over concatenation of parts. */
  lemma {:induction false} ResolvePartsAppend(a: seq<Part>, b: seq<Part>, res: Resources, visited: set<string>)
    ensures ResolveParts(a + b, res, visited).value ==
              ResolveParts(a, res, visited).value + ResolveParts(b, res, visited).value
    decreases |a|
  {
    if |a| == 0 {
      assert a + b == b;
    } else {
      assert (a + b)[0] == a[0] && (a + b)[1..] == a[1..] + b;
      ResolvePartsAppend(a[1..], b, res, visited);
    }
  }

  /** Parts with no reference resolve to their own text. */
  lemma {:induction false} ResolveTextOnly(parts: seq<Part>, res: Resources, visited: set<string>)
    requires forall i :: 0 <= i < |parts| ==> parts[i].TextPart?
    ensures ResolveParts(parts, res, visited) == Some(Render(parts))
    decreases |parts|
  {
    if |parts| > 0 {
      ResolveTextOnly(parts[1..], res, visited);
    }
  }

  /** A string value with no '@' is resolved as itself when interpolated. */
  lemma {:induction false} PlainTextResolves(s: string, res: Resources, visited: set<string>)
    requires '@' !in s
    ensures ResolveParts(Parts(s), res, visited) == Some(s)
  {
    var ps := Parts(s);
    assert ps == [] || ps == [TextPart(s)];
    ResolveTextOnly(ps, res, visited);
    PartsRender(s);
  }

  /** A reference seen again on the way is a cycle. */
  lemma {:induction false} CycleIsNone(ty: string, key: string, res: Resources, visited: set<string>)
    requires VisitKey(ty, key) in visited
    ensures Resolve(ty, key, res, visited).None?
  {
  }

  /** A reference to a plain string resolves to it; one to a missing
      resource or a value that is not text resolves to nothing. */
  lemma {:induction false} ResolveDirect(ty: string, key: string, res: Resources, visited: set<string>)
    requires VisitKey(ty, key) !in visited
    ensures Lookup(res, ty, key).None? ==> Resolve(ty, key, res, visited).None?
    ensures Lookup(res, ty, key).Some? && Lookup(res, ty, key).value.StringValue? ==>
              Resolve(ty, key, res, visited) == Some(Lookup(res, ty, key).value.str)
    ensures Lookup(res, ty, key).Some? && !(Lookup(res, ty, key).value.StringValue? || Lookup(res, ty, key).value.Reference? || Lookup(res, ty, key).value.Interpolated?) ==>
              Resolve(ty, key, res, visited).None?
  {
  }

  /** A resource that refers to itself resolves to nothing. */
  lemma {:induction false} SelfReference(ty: string, key: string, res: Resources)
    requires Lookup(res, ty, key) == Some(Reference(ty, key))
    ensures Resolve(ty, key, res, {}).None?
  {
    var k := VisitKey(ty, key);
    assert {} + {k} == {k};
    assert Resolve(ty, key, res, {}) == Extract(Reference(ty, key), res, {k});
    CycleIsNone(ty, key, res, {k});
  }

  /** Two resources that refer to each other both resolve to nothing. */
  lemma {:induction false} MutualReference(t1: string, k1: string, t2: string, k2: string, res: Resources)
    requires VisitKey(t1, k1) != VisitKey(t2, k2)
    requires Lookup(res, t1, k1) == Some(Reference(t2, k2))
    requires Lookup(res, t2, k2) == Some(Reference(t1, k1))
    ensures Resolve(t1, k1, res, {}).None?
  {
    var a := VisitKey(t1, k1);
    var b := VisitKey(t2, k2);
    assert {} + {a} == {a};
    assert Resolve(t1, k1, res, {}) == Resolve(t2, k2, res, {a});
    assert Resolve(t2, k2, res, {a}) == Resolve(t1, k1, res, {a} + {b});
    CycleIsNone(t1, k1, res, {a} + {b});
  }

  /** A chain of references ending at a string resolves to that string. */
  lemma {:induction false} ReferenceChain(t1: string, k1: string, t2: string, k2: string, s: string, res: Resources)
    requires VisitKey(t1, k1) != VisitKey(t2, k2)
    requires Lookup(res, t1, k1) == Some(Reference(t2, k2))
    requires Lookup(res, t2, k2) == Some(StringValue(s))
    ensures Resolve(t1, k1, res, {}) == Some(s)
  {
    var a := VisitKey(t1, k1);
    assert {} + {a} == {a};
    assert Resolve(t1, k1, res, {}) == Resolve(t2, k2, res, {a});
    ResolveDirect(t2, k2, res, {a});
  }

  /** An interpolation `text @type/key text` whose reference names a plain
      string reads as the text with the string in place of the
      reference. */
  lemma {:induction false} InterpolationSubstitutes(before: string, ty: string, key: string, after: string, s: string, res: Resources)
    requires Lookup(res, ty, key) == Some(StringValue(s))
    ensures ResolveParts([TextPart(before), RefPart(ty, key), TextPart(after)], res, {}) == Some(before + s + after)
  {
    var ps := [TextPart(before), RefPart(ty, key), TextPart(after)];
    ResolveDirect(ty, key, res, {});
    assert PartValue(RefPart(ty, key), res, {}) == s;
    assert ps[1..] == [RefPart(ty, key), TextPart(after)];
    assert ps[1..][1..] == [TextPart(after)];
    assert ps[1..][1..][1..] == [];
    assert ResolveParts([TextPart(after)], res, {}).value == after + "";
    assert ResolveParts(ps[1..], res, {}).value == s + (after + "");
    assert ResolveParts(ps, res, {}).value == before + (s + (after + ""));
    assert after + "" == after;
    assert ResolveParts(ps, res, {}).value == before + s + after;
  }

  /** A reference part that does not resolve is written as '@' and its
      key, without its type. */
  lemma {:induction false} UnresolvedPlaceholder(ty: string, key: string, res: Resources, visited: set<string>)
    requires Lookup(res, ty, key).None?
    ensures ResolveParts([RefPart(ty, key)], res, visited) == Some("@" + key)
  {
    assert [RefPart(ty, key)][1..] == [];
    assert Resolve(ty, key, res, visited).None?;
    assert PartValue(RefPart(ty, key), res, visited) == "@" + key;
    assert ResolveParts([RefPart(ty, key)], res, visited).value == ("@" + key) + "";
    assert ("@" + key) + "" == "@" + key;
  }

  /** `emit_interpolated_constant`: the resolved text, with "@invalid" for
      a resolution that fails. */
  function InterpolatedText(parts: seq<Part>, res: Resources): string {
    ResolveParts(parts, res, {}).GetOr("@invalid")
  }

  /** Resolution of parts never fails, so the "@invalid" fallback is never
      written. */
  lemma {:induction false} InterpolatedNeverInvalid(parts: seq<Part>, res: Resources)
    ensures InterpolatedText(parts, res) == ResolveParts(parts, res, {}).value
  {
  }

  // ---------------------------------------------------------------------
  // Resolution as a chain of references

  /** The first `n + 1` resources of the reference chain from `(ty, key)`:
      each one but the last is a reference to the next. `None` when a
      resource before the last is missing or is no reference. */
  function Follow(res: Resources, ty: string, key: string, n: nat): (r: Option<seq<(string, string)>>)
    ensures r.Some? ==> |r.value| == n + 1 && r.value[0] == (ty, key)
    ensures r.Some? ==> forall j :: 0 <= j < n ==> Lookup(res, r.value[j].0, r.value[j].1) == Some(Reference(r.value[j + 1].0, r.value[j + 1].1))
    decreases n
  {
    if n == 0 then Some([(ty, key)])
    else match Lookup(res, ty, key)
      case Some(Reference(t2, k2)) =>
        (match Follow(res, t2, k2, n - 1)
         case Some(c) => FollowLinks(res, ty, key, t2, k2, c); Some([(ty, key)] + c)
         case None => None)
      case _ => None
  }

  /** A link in front of a chain keeps every link of the chain. */
  lemma {:induction false} FollowLinks(res: Resources, ty: string, key: string, t2: string, k2: string, c: seq<(string, string)>)
    requires Lookup(res, ty, key) == Some(Reference(t2, k2))
    requires |c| > 0 && c[0] == (t2, k2)
    requires forall j :: 0 <= j < |c| - 1 ==> Lookup(res, c[j].0, c[j].1) == Some(Reference(c[j + 1].0, c[j + 1].1))
    ensures var d := [(ty, key)] + c;
            forall j :: 0 <= j < |d| - 1 ==> Lookup(res, d[j].0, d[j].1) == Some(Reference(d[j + 1].0, d[j + 1].1))
  {
    var d := [(ty, key)] + c;
    forall j | 0 <= j < |d| - 1 ensures Lookup(res, d[j].0, d[j].1) == Some(Reference(d[j + 1].0, d[j + 1].1)) {
      if j > 0 {
        assert d[j] == c[j - 1] && d[j + 1] == c[j];
      }
    }
  }

  /** The keys a chain visits. */
  function ChainKeys(c: seq<(string, string)>): set<string> {
    set j | 0 <= j < |c| :: VisitKey(c[j].0, c[j].1)
  }

  /** No resource of the chain is visited twice, nor was visited before. */
  predicate Fresh(c: seq<(string, string)>, visited: set<string>) {
    && (forall j :: 0 <= j < |c| ==> VisitKey(c[j].0, c[j].1) !in visited)
    && (forall i, j :: 0 <= i < j < |c| ==> VisitKey(c[i].0, c[i].1) != VisitKey(c[j].0, c[j].1))
  }

  /** The text the last resource of a chain stands for: a plain string
      itself, an interpolation resolved with the chain's keys visited. */
  function EndText(res: Resources, c: seq<(string, string)>, visited: set<string>): Option<string>
    requires |c| > 0
  {
    match Lookup(res, c[|c| - 1].0, c[|c| - 1].1)
    case Some(StringValue(s)) => Some(s)
    case Some(Interpolated(parts)) => ResolveParts(parts, res, visited + ChainKeys(c))
    case _ => None
  }

  /** The chain of `n` references from `(ty, key)` reaches the text `s`
      without visiting any resource twice. */
  predicate ChainReaches(res: Resources, ty: string, key: string, visited: set<string>, n: nat, s: string) {
    var c := Follow(res, ty, key, n);
    c.Some? && Fresh(c.value, visited) && EndText(res, c.value, visited) == Some(s)
  }

  /** A chain one reference longer, seen from its second resource. */
  lemma {:induction false} ChainTail(res: Resources, ty: string, key: string, t2: string, k2: string, visited: set<string>, n: nat, s: string)
    requires Lookup(res, ty, key) == Some(Reference(t2, k2))
    ensures ChainReaches(res, ty, key, visited, n + 1, s) <==>
              VisitKey(ty, key) !in visited && ChainReaches(res, t2, k2, visited + {VisitKey(ty, key)}, n, s)
  {
    var f := Follow(res, t2, k2, n);
    FollowCons(res, ty, key, t2, k2, n);
    if f.Some? {
      FreshCons(ty, key, f.value, visited);
      EndTextCons(res, ty, key, f.value, visited);
    }
  }

  /** The chain from a reference is the reference in front of the chain
      from what it names. */
  lemma {:induction false} FollowCons(res: Resources, ty: string, key: string, t2: string, k2: string, n: nat)
    requires Lookup(res, ty, key) == Some(Reference(t2, k2))
    ensures Follow(res, ty, key, n + 1) ==
              match Follow(res, t2, k2, n)
              case Some(c) => Some([(ty, key)] + c)
              case None => None
  {
  }

  /** A resource in front of a chain adds its key to the chain's keys. */
  lemma {:induction false} ChainKeysCons(ty: string, key: string, c: seq<(string, string)>)
    ensures ChainKeys([(ty, key)] + c) == {VisitKey(ty, key)} + ChainKeys(c)
  {
    var k := VisitKey(ty, key);
    var d := [(ty, key)] + c;
    forall x | x in ChainKeys(d) ensures x in {k} + ChainKeys(c) {
      var j :| 0 <= j < |d| && x == VisitKey(d[j].0, d[j].1);
      if j > 0 {
        assert d[j] == c[j - 1];
      }
    }
    forall x | x in ChainKeys(c) ensures x in ChainKeys(d) {
      var j :| 0 <= j < |c| && x == VisitKey(c[j].0, c[j].1);
      assert d[j + 1] == c[j];
    }
    assert k == VisitKey(d[0].0, d[0].1);
  }

  /** A resource in front of a chain leaves its end alone, its key being
      visited. */
  lemma {:induction false} EndTextCons(res: Resources, ty: string, key: string, c: seq<(string, string)>, visited: set<string>)
    requires |c| > 0
    ensures EndText(res, [(ty, key)] + c, visited) == EndText(res, c, visited + {VisitKey(ty, key)})
  {
    var d := [(ty, key)] + c;
    assert d[|d| - 1] == c[|c| - 1];
    ChainKeysCons(ty, key, c);
    assert visited + {VisitKey(ty, key)} + ChainKeys(c) == visited + ChainKeys(d);
  }

  /** A resource in front of a chain keeps it fresh exactly when the
      resource was not visited and the chain stays fresh with it visited. */
  lemma {:induction false} FreshCons(ty: string, key: string, c: seq<(string, string)>, visited: set<string>)
    ensures var k := VisitKey(ty, key);
            Fresh([(ty, key)] + c, visited) <==> k !in visited && Fresh(c, visited + {k})
  {
    var k := VisitKey(ty, key);
    var d := [(ty, key)] + c;
    assert forall j :: 0 <= j < |c| ==> d[j + 1] == c[j];
    if Fresh(d, visited) {
      assert VisitKey(d[0].0, d[0].1) == k;
      forall j | 0 <= j < |c| ensures VisitKey(c[j].0, c[j].1) !in visited + {k} {
        assert VisitKey(d[j + 1].0, d[j + 1].1) != VisitKey(d[0].0, d[0].1);
      }
      forall i, j | 0 <= i < j < |c| ensures VisitKey(c[i].0, c[i].1) != VisitKey(c[j].0, c[j].1) {
        assert VisitKey(d[i + 1].0, d[i + 1].1) != VisitKey(d[j + 1].0, d[j + 1].1);
      }
    }
    if k !in visited && Fresh(c, visited + {k}) {
      forall i, j | 0 <= i < j < |d| ensures VisitKey(d[i].0, d[i].1) != VisitKey(d[j].0, d[j].1) {
        if i > 0 {
          assert d[i] == c[i - 1];
        }
        assert d[j] == c[j - 1];
      }
    }
  }

  /** A reference resolves to a text exactly when its chain of references
      reaches that text, a plain string or an interpolation, without
      visiting a resource twice. */
  lemma {:induction false} ResolveIffChain(ty: string, key: string, res: Resources, visited: set<string>, s: string)
    ensures Resolve(ty, key, res, visited) == Some(s) <==> exists n :: ChainReaches(res, ty, key, visited, n, s)
  {
    if Resolve(ty, key, res, visited) == Some(s) {
      ResolveHasChain(ty, key, res, visited, s);
    }
    if exists n :: ChainReaches(res, ty, key, visited, n, s) {
      var n :| ChainReaches(res, ty, key, visited, n, s);
      ChainResolves(ty, key, res, visited, n, s);
    }
  }

  /** A chain that reaches a text is what resolution follows. */
  lemma {:induction false} ChainResolves(ty: string, key: string, res: Resources, visited: set<string>, n: nat, s: string)
    requires ChainReaches(res, ty, key, visited, n, s)
    ensures Resolve(ty, key, res, visited) == Some(s)
    decreases n
  {
    var k := VisitKey(ty, key);
    var c := Follow(res, ty, key, n).value;
    assert VisitKey(c[0].0, c[0].1) == k;
    if n == 0 {
      assert ChainKeys(c) == {k};
    } else {
      var v := Lookup(res, ty, key).value;
      ChainTail(res, ty, key, v.resourceType, v.key, visited, n - 1, s);
      ChainResolves(v.resourceType, v.key, res, visited + {k}, n - 1, s);
    }
  }

  /** What resolves has a chain that reaches it. */
  lemma {:induction false} ResolveHasChain(ty: string, key: string, res: Resources, visited: set<string>, s: string)
    requires Resolve(ty, key, res, visited) == Some(s)
    ensures exists n :: ChainReaches(res, ty, key, visited, n, s)
    decreases |Existing(res) - visited|
  {
    var k := VisitKey(ty, key);
    var v := Lookup(res, ty, key).value;
    assert Resolve(ty, key, res, visited) == Extract(v, res, visited + {k});
    if v.Reference? {
      LookupExisting(res, ty, key);
      FewerUnvisited(Existing(res), visited, k);
      assert Resolve(v.resourceType, v.key, res, visited + {k}) == Some(s);
      ResolveHasChain(v.resourceType, v.key, res, visited + {k}, s);
      var n :| ChainReaches(res, v.resourceType, v.key, visited + {k}, n, s);
      ChainTail(res, ty, key, v.resourceType, v.key, visited, n, s);
    } else {
      DirectChain(ty, key, res, visited, v, s);
    }
  }

  /** A resource that is no reference and extracts to a text is a chain of
      no reference. */
  lemma {:induction false} DirectChain(ty: string, key: string, res: Resources, visited: set<string>, v: Value, s: string)
    requires VisitKey(ty, key) !in visited && Lookup(res, ty, key) == Some(v) && !v.Reference?
    requires Extract(v, res, visited + {VisitKey(ty, key)}) == Some(s)
    ensures ChainReaches(res, ty, key, visited, 0, s)
  {
    var c := [(ty, key)];
    assert Follow(res, ty, key, 0) == Some(c);
    assert VisitKey(c[0].0, c[0].1) == VisitKey(ty, key);
    assert ChainKeys(c) == {VisitKey(ty, key)};
  }

  /** A chain that reaches a text visits fewer resources than exist, so
      resolution follows at most that many references. */
  lemma {:induction false} ChainBounded(res: Resources, ty: string, key: string, visited: set<string>, n: nat, s: string)
    requires ChainReaches(res, ty, key, visited, n, s)
    ensures n < |Existing(res)|
  {
    var c := Follow(res, ty, key, n).value;
    forall x | x in ChainKeys(c) ensures x in Existing(res) {
      var j :| 0 <= j < |c| && x == VisitKey(c[j].0, c[j].1);
      if j < n {
        assert Lookup(res, c[j].0, c[j].1) == Some(Reference(c[j + 1].0, c[j + 1].1));
      } else {
        assert EndText(res, c, visited).Some?;
      }
      LookupExisting(res, c[j].0, c[j].1);
    }
    DistinctKeys(c);
    SubsetSize(ChainKeys(c), Existing(res));
  }

  /** The keys of a chain that visits no resource twice are as many as its
      resources. */
  lemma {:induction false} DistinctKeys(c: seq<(string, string)>)
    requires forall i, j :: 0 <= i < j < |c| ==> VisitKey(c[i].0, c[i].1) != VisitKey(c[j].0, c[j].1)
    ensures |ChainKeys(c)| == |c|
    decreases |c|
  {
    if |c| == 0 {
      assert ChainKeys(c) == {};
    } else {
      var t := c[1..];
      assert c == [c[0]] + t;
      assert forall i, j :: 0 <= i < j < |t| ==> t[i] == c[i + 1] && t[j] == c[j + 1];
      DistinctKeys(t);
      ChainKeysCons(c[0].0, c[0].1, t);
      assert VisitKey(c[0].0, c[0].1) !in ChainKeys(t) by {
        forall x | x in ChainKeys(t) ensures x != VisitKey(c[0].0, c[0].1) {
          var j :| 0 <= j < |t| && x == VisitKey(t[j].0, t[j].1);
          assert t[j] == c[j + 1];
        }
      }
    }
  }

  lemma {:induction false} SubsetSize(a: set<string>, b: set<string>)
    requires a <= b
    ensures |a| <= |b|
  {
    assert b == a + (b - a);
  }
}
