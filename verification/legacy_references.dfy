/** References in the legacy pipeline (codegen/references.rs): the Rust
    path a reference `@type/ns/name` compiles to, and the check that every
    reference names a resource that exists. */
module LegacyReferences {
  import opened Wrappers
  import opened Text
  import opened Identifiers
  import opened LegacyTypes

  /** The parsed resources: per type, the `(name, value)` pairs in
      document order. The source keeps them in a `HashMap`, whose
      iteration order is a parameter wherever it matters. */
  type Resources = map<string, seq<(string, Value)>>

  /** The first item named `name`, as `iter().find(|(n, _)| n == name)`. */
  function FindIndex(items: seq<(string, Value)>, name: string): (r: Option<nat>)
    ensures r.None? <==> forall i :: 0 <= i < |items| ==> items[i].0 != name
    ensures r.Some? ==> r.value < |items| && items[r.value].0 == name
    ensures r.Some? ==> forall j :: 0 <= j < r.value ==> items[j].0 != name
    decreases |items|
  {
    if |items| == 0 then None
    else if items[0].0 == name then Some(0)
    else match FindIndex(items[1..], name)
      case None => None
      case Some(i) => Some(i + 1)
  }

  /** The value of `key` among the resources of type `ty`. */
  function Lookup(res: Resources, ty: string, key: string): (r: Option<Value>)
    ensures r.Some? <==> ty in res && exists i :: 0 <= i < |res[ty]| && res[ty][i].0 == key
  {
    if ty !in res then None
    else match FindIndex(res[ty], key)
      case None => None
      case Some(i) => Some(res[ty][i].1)
  }

  // ---------------------------------------------------------------------
  // resolve_reference_path

  /** The Rust path of the constant a reference names: the type module
      (under `crate::` on request), one module per namespace segment of
      the key, and the constant for its last segment. Empty segments are
      dropped. */
  function ReferencePath(ty: string, key: string, crate: bool): string {
    var parts := NonEmpty(Split(key, '/'));
    var constName := if |parts| == 0 then "" else ConstName(parts[|parts| - 1]);
    var modulePath := Join(SanitizeAll(if |parts| == 0 then [] else parts[..|parts| - 1]), "::");
    var prefix := if crate then "crate::" + ty else ty;
    if modulePath == [] then prefix + "::" + constName
    else prefix + "::" + modulePath + "::" + constName
  }

  function SanitizeAll(names: seq<string>): (r: seq<string>)
    ensures |r| == |names|
    ensures forall i :: 0 <= i < |names| ==> r[i] == Sanitize(names[i])
  {
    seq(|names|, i requires 0 <= i < |names| => Sanitize(names[i]))
  }

  /** The path is the `::`-join of its segments: `crate` when asked for,
      the type, the sanitized namespaces and the constant name. */
  function PathSegments(ty: string, key: string, crate: bool): seq<string> {
    var parts := NonEmpty(Split(key, '/'));
    (if crate then ["crate"] else []) + [ty]
    + SanitizeAll(if |parts| == 0 then [] else parts[..|parts| - 1])
    + [if |parts| == 0 then "" else ConstName(parts[|parts| - 1])]
  }

  lemma {:induction false} JoinNonEmpty(parts: seq<string>, sep: string)
    requires |parts| > 0 && forall i :: 0 <= i < |parts| ==> parts[i] != []
    ensures Join(parts, sep) != []
  {
  }

  lemma {:induction false} JoinAppend(a: seq<string>, b: seq<string>, sep: string)
    requires |a| > 0 && |b| > 0
    ensures Join(a + b, sep) == Join(a, sep) + sep + Join(b, sep)
    decreases |a|
  {
    if |a| == 1 {
      assert (a + b)[1..] == b;
      assert (a + b)[0] == a[0];
    } else {
      assert (a + b)[1..] == a[1..] + b;
      JoinAppend(a[1..], b, sep);
    }
  }

  /** `ReferencePath` joins exactly the segments `PathSegments` lists, so
      every namespace segment names a module and the last one the
      constant. */
  lemma {:induction false} ReferencePathSegments(ty: string, key: string, crate: bool)
    ensures ReferencePath(ty, key, crate) == Join(PathSegments(ty, key, crate), "::")
  {
    var parts := NonEmpty(Split(key, '/'));
    var mods := SanitizeAll(if |parts| == 0 then [] else parts[..|parts| - 1]);
    var constName := if |parts| == 0 then "" else ConstName(parts[|parts| - 1]);
    forall i | 0 <= i < |mods| ensures mods[i] != [] {
      assert parts[..|parts| - 1][i] in parts;
    }
    HeadJoin(ty, crate);
    JoinPath((if crate then ["crate"] else []) + [ty], if crate then "crate::" + ty else ty, mods, constName);
  }

  lemma {:induction false} HeadJoin(ty: string, crate: bool)
    ensures Join((if crate then ["crate"] else []) + [ty], "::") == if crate then "crate::" + ty else ty
  {
    if crate {
      var head := ["crate"] + [ty];
      assert head[1..] == [ty];
    } else {
      assert [] + [ty] == [ty];
    }
  }

  lemma {:induction false} JoinPath(head: seq<string>, prefix: string, mods: seq<string>, c: string)
    requires |head| > 0 && Join(head, "::") == prefix
    requires forall i :: 0 <= i < |mods| ==> mods[i] != []
    ensures Join(head + mods + [c], "::") ==
              if Join(mods, "::") == [] then prefix + "::" + c else prefix + "::" + Join(mods, "::") + "::" + c
  {
    if |mods| == 0 {
      JoinAppend(head, [c], "::");
      assert head + mods + [c] == head + [c];
    } else {
      JoinNonEmpty(mods, "::");
      JoinAppend(head, mods, "::");
      JoinSnoc(head + mods, c, "::");
    }
  }

  /** The examples the source documents: a plain reference and one under
      `crate::`. */
  lemma {:induction false} ReferencePathExamples()
    ensures ReferencePath("string", "app_name", false) == "string::APP_NAME"
    ensures ReferencePath("color", "primary", true) == "crate::color::PRIMARY"
  {
    AppNamePath("app_name");
    PrimaryPath("primary");
  }

  lemma {:induction false} AppNamePath(key: string)
    requires key == "app_name"
    ensures ReferencePath("string", key, false) == "string::APP_NAME"
  {
    SingleSegmentPath("string", key, false);
    assert ConstName(key) == "APP_NAME";
  }

  lemma {:induction false} PrimaryPath(key: string)
    requires key == "primary"
    ensures ReferencePath("color", key, true) == "crate::color::PRIMARY"
  {
    SingleSegmentPath("color", key, true);
    assert ConstName(key) == "PRIMARY";
  }

  /** A key with no '/' is a constant directly in the type module. */
  lemma {:induction false} SingleSegmentPath(ty: string, key: string, crate: bool)
    requires key != [] && '/' !in key
    ensures ReferencePath(ty, key, crate) == (if crate then "crate::" + ty else ty) + "::" + ConstName(key)
  {
    CountAbsent(key, '/');
    var split := Split(key, '/');
    assert split == [key];
    assert NonEmpty(split) == [key] by {
      assert split[1..] == [];
    }
  }

  // ---------------------------------------------------------------------
  // validate_references

  /** The references a value holds: itself, the reference parts of an
      interpolation, or none. */
  function RefsOf(v: Value): (r: seq<(string, string)>)
    ensures v.Reference? ==> r == [(v.resourceType, v.key)]
    ensures !v.Reference? && !v.Interpolated? ==> r == []
    ensures v.Interpolated? ==> |r| <= |v.parts|
  {
    match v
    case Reference(ty, key) => [(ty, key)]
    case Interpolated(parts) => PartRefs(parts)
    case _ => []
  }

  function PartRefs(parts: seq<Part>): (r: seq<(string, string)>)
    ensures |r| <= |parts|
    ensures forall j :: 0 <= j < |r| ==> RefPart(r[j].0, r[j].1) in parts
  {
    if |parts| == 0 then []
    else
      var rest := PartRefs(parts[1..]);
      assert forall p :: p in parts[1..] ==> p in parts;
      match parts[0]
      case RefPart(ty, key) => [(ty, key)] + rest
      case TextPart(_) => rest
  }

  /** The error for a reference from `resType.name` to `ty/key`, if any. */
  function CheckReference(res: Resources, resType: string, name: string, ty: string, key: string): (r: seq<string>)
    ensures |r| <= 1
    ensures r == [] <==> Lookup(res, ty, key).Some?
  {
    if ty in res then
      if FindIndex(res[ty], key).Some? then []
      else ["Unresolved reference in " + resType + "." + name + ": @" + ty + "/" + key + " does not exist"]
    else ["Invalid reference in " + resType + "." + name + ": resource type '" + ty + "' does not exist"]
  }

  function CheckRefs(res: Resources, resType: string, name: string, refs: seq<(string, string)>): (r: seq<string>)
    ensures |r| <= |refs|
    decreases |refs|
  {
    if |refs| == 0 then []
    else CheckReference(res, resType, name, refs[0].0, refs[0].1) + CheckRefs(res, resType, name, refs[1..])
  }

  function CheckItems(res: Resources, resType: string, items: seq<(string, Value)>): seq<string>
    decreases |items|
  {
    if |items| == 0 then []
    else CheckRefs(res, resType, items[0].0, RefsOf(items[0].1)) + CheckItems(res, resType, items[1..])
  }

  /** A `HashMap` iteration order over the types: each type once. */
  predicate IsOrder(res: Resources, order: seq<string>) {
    (forall i :: 0 <= i < |order| ==> order[i] in res)
    && (forall ty :: ty in res ==> ty in order)
    && (forall i, j :: 0 <= i < j < |order| ==> order[i] != order[j])
  }

  /** `validate_references`, visiting the types in `order`. */
  function ValidateReferences(res: Resources, order: seq<string>): seq<string>
    requires forall i :: 0 <= i < |order| ==> order[i] in res
    decreases |order|
  {
    if |order| == 0 then []
    else CheckItems(res, order[0], res[order[0]]) + ValidateReferences(res, order[1..])
  }

  predicate Resolves(res: Resources, r: (string, string)) {
    Lookup(res, r.0, r.1).Some?
  }

  predicate RefsResolve(res: Resources, refs: seq<(string, string)>) {
    forall j :: 0 <= j < |refs| ==> Resolves(res, refs[j])
  }

  predicate ItemsResolve(res: Resources, items: seq<(string, Value)>) {
    forall i :: 0 <= i < |items| ==> RefsResolve(res, RefsOf(items[i].1))
  }

  /** Every reference of every resource names an existing resource. */
  predicate AllResolve(res: Resources) {
    forall ty :: ty in res ==> ItemsResolve(res, res[ty])
  }

  lemma {:induction false} CheckRefsEmpty(res: Resources, resType: string, name: string, refs: seq<(string, string)>)
    ensures CheckRefs(res, resType, name, refs) == [] <==> RefsResolve(res, refs)
    decreases |refs|
  {
    if |refs| > 0 {
      CheckRefsEmpty(res, resType, name, refs[1..]);
      assert forall j :: 1 <= j < |refs| ==> refs[1..][j - 1] == refs[j];
    }
  }

  lemma {:induction false} CheckItemsEmpty(res: Resources, resType: string, items: seq<(string, Value)>)
    ensures CheckItems(res, resType, items) == [] <==> ItemsResolve(res, items)
    decreases |items|
  {
    if |items| > 0 {
      CheckRefsEmpty(res, resType, items[0].0, RefsOf(items[0].1));
      CheckItemsEmpty(res, resType, items[1..]);
      assert forall j :: 1 <= j < |items| ==> items[1..][j - 1] == items[j];
    }
  }

  lemma {:induction false} ValidateEmpty(res: Resources, order: seq<string>)
    requires forall i :: 0 <= i < |order| ==> order[i] in res
    ensures ValidateReferences(res, order) == [] <==> forall i :: 0 <= i < |order| ==> ItemsResolve(res, res[order[i]])
    decreases |order|
  {
    if |order| > 0 {
      CheckItemsEmpty(res, order[0], res[order[0]]);
      ValidateEmpty(res, order[1..]);
      assert forall j :: 1 <= j < |order| ==> order[1..][j - 1] == order[j];
    }
  }

  /** Validation reports nothing exactly when every reference resolves,
      whatever order the types are visited in. */
  lemma {:induction false} ValidateNothingIff(res: Resources, order: seq<string>)
    requires IsOrder(res, order)
    ensures ValidateReferences(res, order) == [] <==> AllResolve(res)
  {
    ValidateEmpty(res, order);
    if AllResolve(res) {
      forall i | 0 <= i < |order| ensures ItemsResolve(res, res[order[i]]) {
      }
    }
    if forall i :: 0 <= i < |order| ==> ItemsResolve(res, res[order[i]]) {
      forall ty | ty in res ensures ItemsResolve(res, res[ty]) {
        var i :| 0 <= i < |order| && order[i] == ty;
      }
    }
  }

  /** Each bad reference is reported once: the number of messages is the
      number of references that do not resolve. */
  function BadCount(res: Resources, refs: seq<(string, string)>): nat
    decreases |refs|
  {
    if |refs| == 0 then 0
    else (if Resolves(res, refs[0]) then 0 else 1) + BadCount(res, refs[1..])
  }

  lemma {:induction false} CheckRefsCount(res: Resources, resType: string, name: string, refs: seq<(string, string)>)
    ensures |CheckRefs(res, resType, name, refs)| == BadCount(res, refs)
    decreases |refs|
  {
    if |refs| > 0 {
      CheckRefsCount(res, resType, name, refs[1..]);
    }
  }

  /** A reference to a type that exists but lacks the key, and one to a
      type that does not exist, give the two messages of the source. */
  lemma {:induction false} CheckReferenceMessages(res: Resources, resType: string, name: string, ty: string, key: string)
    ensures ty in res && Lookup(res, ty, key).None? ==>
      CheckReference(res, resType, name, ty, key) == ["Unresolved reference in " + resType + "." + name + ": @" + ty + "/" + key + " does not exist"]
    ensures ty !in res ==>
      CheckReference(res, resType, name, ty, key) == ["Invalid reference in " + resType + "." + name + ": resource type '" + ty + "' does not exist"]
  {
  }
}
