/** The flat `r` and `r_t` modules of the legacy generator
    (codegen/generator/flat.rs): one `pub use` line per named resource,
    type by type in a fixed order, re-exporting it under its flat name. */
module LegacyFlat {
  import opened Wrappers
  import opened Text
  import opened Identifiers
  import opened Tree
  import opened LegacyTypes
  import opened LegacyReferences
  import opened LegacyStrings

  const RHeader := "\n/// Flat access to all resources via `r::RESOURCE_NAME`\npub mod r {\n"
  const RtHeader := "\n/// Flat access for typed resources via `r_t::RESOURCE_NAME`\npub mod r_t {\n"

  /** The types `r` re-exports, in the order it lists them. */
  const FlatTypes: seq<string> :=
    ["string", "int", "float", "bool", "color", "url", "dimension", "string_array", "int_array", "float_array"]

  /** The types `r_t` re-exports. */
  const TypedFlatTypes: seq<string> := ["color_t", "url_t"]

  /** The types whose modules nest namespaced names (the node trees of
      codegen/generator/basic.rs); the others are flat lists. */
  predicate Nests(ty: string) {
    ty == "string" || ty == "int" || ty == "float" || ty == "bool"
  }

  /** One `pub use` item: the path it imports and the name it is known by
      in the flat module. */
  datatype Use = Use(path: seq<string>, alias: string)

  /** `pub use path;` when the path already ends in the flat name,
      `pub use path as alias;` otherwise. */
  function UseLine(u: Use): string {
    "    pub use " + Join(u.path, "::")
    + (if |u.path| > 0 && u.path[|u.path| - 1] == u.alias then "" else " as " + u.alias)
    + ";\n"
  }

  /** How a resource is re-exported: as the source writes it, or with
      the path where its module actually declares it. */
  datatype Export = AsWritten | Corrected

  /** The name a nested module declares for an item: the upper-case
      constant, or the lower-case function of a string template. */
  function DeclaredName(ty: string, leaf: string, v: Value): string {
    if ty == "string" && v.TemplateValue? then ToLower(Sanitize(leaf)) else ConstName(leaf)
  }

  /** The `pub use` for one resource, `None` when it is skipped. The
      source skips an empty name and imports `crate::{type}::{NAME}`
      with NAME the whole name sanitized in upper case. The corrected
      form imports the nested path of a namespaced name, and the function
      of a template, under the same flat name; a name the nested module
      does not hold at all (no non-empty segment) is skipped. */
  function UseOf(e: Export, ty: string, item: (string, Value)): Option<Use> {
    var name := item.0;
    if name == [] then None
    else match e
      case AsWritten => Some(Use(["crate", ty, ConstName(name)], ConstName(name)))
      case Corrected =>
        if !Nests(ty) then Some(Use(["crate", ty, ConstName(name)], ConstName(name)))
        else if |Segments(name)| == 0 then None
        else Some(Use(["crate", ty] + Dir(name) + [DeclaredName(ty, Leaf(name), item.1)], ConstName(name)))
  }

  /** The items `export_resources` writes for one list, in list order. */
  function Uses(e: Export, ty: string, items: seq<(string, Value)>): seq<Use>
    decreases |items|
  {
    if |items| == 0 then []
    else
      Uses(e, ty, items[..|items| - 1])
      + (match UseOf(e, ty, items[|items| - 1]) case Some(u) => [u] case None => [])
  }

  function UseLines(us: seq<Use>): (r: seq<string>)
    ensures |r| == |us| && forall i :: 0 <= i < |us| ==> r[i] == UseLine(us[i])
  {
    seq(|us|, i requires 0 <= i < |us| => UseLine(us[i]))
  }

  /** `export_resources`: nothing when the type has no list. */
  function ExportResources(e: Export, res: Resources, ty: string): string {
    if ty in res then Concat(UseLines(Uses(e, ty, res[ty]))) else ""
  }

  function ExportBodies(e: Export, res: Resources, tys: seq<string>): (r: seq<string>)
    ensures |r| == |tys| && forall i :: 0 <= i < |tys| ==> r[i] == ExportResources(e, res, tys[i])
  {
    seq(|tys|, i requires 0 <= i < |tys| => ExportResources(e, res, tys[i]))
  }

  function GenerateR(e: Export, res: Resources): string {
    RHeader + Concat(ExportBodies(e, res, FlatTypes)) + "}\n"
    + RtHeader + Concat(ExportBodies(e, res, TypedFlatTypes)) + "}\n"
  }

  /** `generate_r_module` as written. */
  function GenerateRModuleAsWritten(res: Resources): string {
    GenerateR(AsWritten, res)
  }

  /** `generate_r_module` with the corrected paths, as the rest of the
      model uses it. */
  function GenerateRModule(res: Resources): string {
    GenerateR(Corrected, res)
  }

  // ---------------------------------------------------------------------
  // What is exported

  /** A use is written exactly when some resource of the list gives it. */
  lemma {:induction false} UsesMembers(e: Export, ty: string, items: seq<(string, Value)>, u: Use)
    ensures u in Uses(e, ty, items) <==> exists i :: 0 <= i < |items| && UseOf(e, ty, items[i]) == Some(u)
    decreases |items|
  {
    if |items| > 0 {
      var init := items[..|items| - 1];
      UsesMembers(e, ty, init, u);
      if exists i :: 0 <= i < |init| && UseOf(e, ty, init[i]) == Some(u) {
        var i :| 0 <= i < |init| && UseOf(e, ty, init[i]) == Some(u);
        assert items[i] == init[i];
      }
      if exists i :: 0 <= i < |items| && UseOf(e, ty, items[i]) == Some(u) {
        var i :| 0 <= i < |items| && UseOf(e, ty, items[i]) == Some(u);
        if i < |init| {
          assert init[i] == items[i];
        }
      }
    }
  }

  /** The uses keep the order of the list: those of a prefix come first. */
  lemma {:induction false} UsesAppend(e: Export, ty: string, a: seq<(string, Value)>, b: seq<(string, Value)>)
    ensures Uses(e, ty, a + b) == Uses(e, ty, a) + Uses(e, ty, b)
    decreases |b|
  {
    if |b| == 0 {
      assert a + b == a;
    } else {
      var b' := b[..|b| - 1];
      assert (a + b)[..|a + b| - 1] == a + b';
      assert (a + b)[|a + b| - 1] == b[|b| - 1];
      UsesAppend(e, ty, a, b');
    }
  }

  /** Only a named resource is re-exported. */
  lemma {:induction false} UnnamedSkipped(e: Export, ty: string, v: Value)
    ensures Uses(e, ty, [([], v)]) == []
  {
    var items: seq<(string, Value)> := [([], v)];
    assert items[..0] == [];
  }

  /** A name with no characters has no segment. */
  lemma {:induction false} EmptySegments(name: string)
    requires name == []
    ensures Segments(name) == []
  {
    var split := Split(name, '/');
    var none: seq<string> := [];
    assert split == [[]];
    assert split[1..] == none;
  }

  /** A type without a list contributes nothing. */
  lemma {:induction false} AbsentTypeEmpty(e: Export, res: Resources, ty: string)
    requires ty !in res
    ensures ExportResources(e, res, ty) == ""
  {
  }

  /** `r_t` re-exports only the "color_t" and "url_t" lists: without them
      it is an empty module. */
  lemma {:induction false} TypedFlatEmpty(e: Export, res: Resources)
    requires "color_t" !in res && "url_t" !in res
    ensures GenerateR(e, res) == RHeader + Concat(ExportBodies(e, res, FlatTypes)) + "}\n" + RtHeader + "}\n"
  {
    var bodies := ExportBodies(e, res, TypedFlatTypes);
    assert bodies == ["", ""];
    assert bodies[1..] == [""] && bodies[1..][1..] == [];
    assert Concat(bodies[1..][1..]) == "";
    assert Concat(bodies[1..]) == "";
  }

  lemma {:induction false} ConcatAppend(a: seq<string>, b: seq<string>)
    ensures Concat(a + b) == Concat(a) + Concat(b)
    decreases |a|
  {
    if |a| > 0 {
      assert (a + b)[0] == a[0];
      assert (a + b)[1..] == a[1..] + b;
      ConcatAppend(a[1..], b);
    } else {
      assert a + b == b;
    }
  }

  lemma {:induction false} ConcatSplit(parts: seq<string>, k: nat)
    requires k < |parts|
    ensures Concat(parts) == Concat(parts[..k]) + parts[k] + Concat(parts[k + 1..])
  {
    SplitGrouped(parts, k);
    ConcatAppend(parts[..k], [parts[k]] + parts[k + 1..]);
    ConcatCons(parts[k], parts[k + 1..]);
  }

  lemma {:induction false} SplitGrouped<T>(s: seq<T>, k: nat)
    requires k < |s|
    ensures s == s[..k] + ([s[k]] + s[k + 1..])
  {
  }

  lemma {:induction false} ConcatCons(x: string, rest: seq<string>)
    ensures Concat([x] + rest) == x + Concat(rest)
  {
    assert ([x] + rest)[1..] == rest;
  }

  /** The types are exported one after the other in the order of the
      list: everything of the types before `k` comes first, everything
      of the types after it follows. */
  lemma {:induction false} ExportOrder(e: Export, res: Resources, tys: seq<string>, k: nat)
    requires k < |tys|
    ensures Concat(ExportBodies(e, res, tys)) ==
              Concat(ExportBodies(e, res, tys[..k])) + ExportResources(e, res, tys[k]) + Concat(ExportBodies(e, res, tys[k + 1..]))
  {
    var bodies := ExportBodies(e, res, tys);
    ConcatSplit(bodies, k);
    assert bodies[..k] == ExportBodies(e, res, tys[..k]);
    assert bodies[k + 1..] == ExportBodies(e, res, tys[k + 1..]);
  }

  /** The lines of one type come in the order of its list. */
  lemma {:induction false} ListOrder(e: Export, ty: string, a: seq<(string, Value)>, b: seq<(string, Value)>)
    ensures Concat(UseLines(Uses(e, ty, a + b))) == Concat(UseLines(Uses(e, ty, a))) + Concat(UseLines(Uses(e, ty, b)))
  {
    UsesAppend(e, ty, a, b);
    UseLinesAppend(Uses(e, ty, a), Uses(e, ty, b));
    ConcatAppend(UseLines(Uses(e, ty, a)), UseLines(Uses(e, ty, b)));
  }

  lemma {:induction false} UseLinesAppend(x: seq<Use>, y: seq<Use>)
    ensures UseLines(x + y) == UseLines(x) + UseLines(y)
  {
  }

  /** A resource that is not skipped has its line in its type's part. */
  lemma {:induction false} ExportedInList(e: Export, res: Resources, ty: string, item: (string, Value), u: Use)
    requires ty in res && item in res[ty] && UseOf(e, ty, item) == Some(u)
    ensures Contains(ExportResources(e, res, ty), UseLine(u))
  {
    var items := res[ty];
    var i :| 0 <= i < |items| && items[i] == item;
    UsesMembers(e, ty, items, u);
    var us := Uses(e, ty, items);
    var j :| 0 <= j < |us| && us[j] == u;
    ConcatContains(UseLines(us), j);
  }

  /** Each type's part is inside the `r` module. */
  lemma {:induction false} ListInModule(e: Export, res: Resources, k: nat)
    requires k < |FlatTypes|
    ensures Contains(GenerateR(e, res), ExportResources(e, res, FlatTypes[k]))
  {
    var bodies := ExportBodies(e, res, FlatTypes);
    var tail := "}\n" + RtHeader + Concat(ExportBodies(e, res, TypedFlatTypes)) + "}\n";
    ConcatContains(bodies, k);
    ContainsWrapped(RHeader, Concat(bodies), tail, bodies[k]);
    assert GenerateR(e, res) == RHeader + Concat(bodies) + tail;
  }

  /** Every resource of a re-exported type that is not skipped gets its
      `pub use` line in the generated module. */
  lemma {:induction false} Exported(e: Export, res: Resources, k: nat, item: (string, Value), u: Use)
    requires k < |FlatTypes| && FlatTypes[k] in res && item in res[FlatTypes[k]]
    requires UseOf(e, FlatTypes[k], item) == Some(u)
    ensures Contains(GenerateR(e, res), UseLine(u))
  {
    ExportedInList(e, res, FlatTypes[k], item, u);
    ListInModule(e, res, k);
    ContainsTrans(GenerateR(e, res), ExportResources(e, res, FlatTypes[k]), UseLine(u));
  }

  // ---------------------------------------------------------------------
  // The as-written export

  lemma {:induction false} JoinThree(a: string, b: string, c: string)
    ensures Join([a, b, c], "::") == a + "::" + b + "::" + c
  {
    assert [a, b, c][1..] == [b, c];
    assert [b, c][1..] == [c];
    assert Join([b, c], "::") == b + "::" + c;
    assert Join([a, b, c], "::") == a + "::" + (b + "::" + c);
  }

  /** The source's line: `    pub use crate::{type}::{NAME};`. */
  lemma {:induction false} AsWrittenLine(ty: string, name: string, v: Value)
    requires name != []
    ensures UseOf(AsWritten, ty, (name, v)) == Some(Use(["crate", ty, ConstName(name)], ConstName(name)))
    ensures UseLine(Use(["crate", ty, ConstName(name)], ConstName(name))) ==
              "    pub use crate::" + ty + "::" + ConstName(name) + ";\n"
  {
    JoinThree("crate", ty, ConstName(name));
  }

  /** As the source writes `r`, every named resource of a listed type is
      re-exported by the line `pub use crate::{type}::{NAME};`. */
  lemma {:induction false} AsWrittenExported(res: Resources, k: nat, name: string, v: Value)
    requires k < |FlatTypes| && FlatTypes[k] in res && (name, v) in res[FlatTypes[k]] && name != []
    ensures Contains(GenerateRModuleAsWritten(res), "    pub use crate::" + FlatTypes[k] + "::" + ConstName(name) + ";\n")
  {
    AsWrittenLine(FlatTypes[k], name, v);
    Exported(AsWritten, res, k, (name, v), Use(["crate", FlatTypes[k], ConstName(name)], ConstName(name)));
  }

  /** The segments of a name without '/'. */
  lemma {:induction false} SegmentsSingle(name: string)
    requires name != [] && '/' !in name
    ensures Segments(name) == [name] && Dir(name) == [] && Leaf(name) == name
  {
    CountAbsent(name, '/');
    var split := Split(name, '/');
    assert split == [name];
    assert split[1..] == [];
    assert SanitizeAll([]) == [];
  }

  /** The segments of a name with one namespace. */
  lemma {:induction false} SegmentsPair(ns: string, leaf: string)
    requires ns != [] && leaf != [] && '/' !in ns && '/' !in leaf
    ensures Segments(ns + "/" + leaf) == [ns, leaf]
    ensures Dir(ns + "/" + leaf) == [Sanitize(ns)] && Leaf(ns + "/" + leaf) == leaf
  {
    var name := ns + "/" + leaf;
    IndexOfAfter(ns, '/', leaf);
    assert name[..|ns|] == ns && name[|ns| + 1..] == leaf;
    CountAbsent(leaf, '/');
    assert Split(leaf, '/') == [leaf];
    assert Split(name, '/') == [ns] + [leaf];
    var split := [ns, leaf];
    assert split[1..] == [leaf] && split[1..][1..] == [];
    assert NonEmpty(split) == [ns, leaf];
    assert [ns, leaf][..1] == [ns];
  }

  /** A plain name keeps its export: for a name without '/' that is not
      a template, the corrected line is the source's line. */
  lemma {:induction false} CorrectedAgrees(ty: string, name: string, v: Value)
    requires name != [] && '/' !in name && !(ty == "string" && v.TemplateValue?)
    ensures UseOf(Corrected, ty, (name, v)) == UseOf(AsWritten, ty, (name, v))
  {
    SegmentsSingle(name);
    assert ["crate", ty] + [] + [ConstName(name)] == ["crate", ty, ConstName(name)];
  }

  /** As written, a namespaced name is imported directly from its type's
      module, but the module nests it one level further for each
      namespace: the imported path is not the one its constant has. */
  lemma {:induction false} NamespacedAsWrittenPath(ty: string, name: string, v: Value)
    requires Nests(ty) && |Segments(name)| >= 2
    ensures name != [] && UseOf(AsWritten, ty, (name, v)).Some?
    ensures |UseOf(AsWritten, ty, (name, v)).value.path| == 3
    ensures |PathSegments(ty, name, true)| == 2 + |Segments(name)|
  {
    if name == [] {
      EmptySegments(name);
    }
    ReferencedPath(ty, name);
  }

  /** The string module of a single namespaced resource declares nothing
      at its top level, so `crate::string::{NAME}` names no item. */
  lemma {:induction false} NamespacedTopLevelEmpty(name: string, v: Value)
    requires |Segments(name)| >= 2
    ensures KeysAt(BuildItemTree([(name, v)]), []) == []
  {
    BuildItemTreeItems([(name, v)], []);
    assert [(name, v)][..0] == [];
    assert |Dir(name)| == |Segments(name)| - 1;
  }

  /** A resource one namespace deep is re-exported, as written, from a
      path that is not its own, and the string module holding only it
      declares nothing at its top level. */
  lemma {:induction false} NamespacedPairBreaks(ns: string, leaf: string, v: Value)
    requires ns != [] && leaf != [] && '/' !in ns && '/' !in leaf && IsIdentifier(ns)
    ensures UseOf(AsWritten, "string", (ns + "/" + leaf, v)).value.path != PathSegments("string", ns + "/" + leaf, true)
    ensures PathSegments("string", ns + "/" + leaf, true) == ["crate", "string", ns, ConstName(leaf)]
    ensures KeysAt(BuildItemTree([(ns + "/" + leaf, v)]), []) == []
  {
    var name := ns + "/" + leaf;
    SegmentsPair(ns, leaf);
    PairPath("string", ns, leaf);
    NamespacedAsWrittenPath("string", name, v);
    NamespacedTopLevelEmpty(name, v);
  }

  /** The path a resource one namespace deep is declared at. */
  lemma {:induction false} PairPath(ty: string, ns: string, leaf: string)
    requires ns != [] && leaf != [] && '/' !in ns && '/' !in leaf && IsIdentifier(ns)
    ensures PathSegments(ty, ns + "/" + leaf, true) == ["crate", ty, ns, ConstName(leaf)]
  {
    var name := ns + "/" + leaf;
    SegmentsPair(ns, leaf);
    SanitizeIdentity(ns);
    ReferencedPath(ty, name);
    assert Dir(name) == [ns] && Leaf(name) == leaf;
    assert ["crate", ty] + [ns] + [ConstName(leaf)] == ["crate", ty, ns, ConstName(leaf)];
  }

  lemma {:induction false} AuthTitle(name: string)
    requires name == "auth/title"
    ensures name == "auth" + "/" + "title"
  {
  }

  /** The input that shows it: "auth/title" is re-exported as
      `crate::string::AUTH_TITLE`, while the string module declares it as
      `crate::string::auth::TITLE` and nothing at its top level. */
  lemma {:induction false} NamespacedExportBreaks(name: string, v: Value)
    requires name == "auth/title"
    ensures UseOf(AsWritten, "string", (name, v)).value.path != PathSegments("string", name, true)
    ensures PathSegments("string", name, true) == ["crate", "string", "auth", ConstName("title")]
    ensures KeysAt(BuildItemTree([(name, v)]), []) == []
  {
    AuthTitle(name);
    NamespacedPairBreaks("auth", "title", v);
  }

  /** As written, a template is imported under its upper-case constant
      name, but the string module declares it as a lower-case function:
      the two differ at every lower-case letter of the name. */
  lemma {:induction false} TemplateAsWrittenName(name: string, t: Template, k: nat)
    requires '/' !in name && k < |name| && IsAsciiLower(name[k])
    ensures UseOf(AsWritten, "string", (name, TemplateValue(t))).value.alias != DeclaredName("string", Leaf(name), TemplateValue(t))
    ensures UseOf(Corrected, "string", (name, TemplateValue(t))).value.path == ["crate", "string", DeclaredName("string", name, TemplateValue(t))]
  {
    SegmentsSingle(name);
    var declared := DeclaredName("string", name, TemplateValue(t));
    assert Sanitize(name)[k] == name[k];
    assert declared[k] == LowerChar(name[k]);
    assert !IsAsciiLower(ConstName(name)[k]);
    assert ["crate", "string"] + [] + [declared] == ["crate", "string", declared];
  }

  lemma {:induction false} Greeting(name: string)
    requires name == "greeting"
    ensures '/' !in name && IsAsciiLower(name[0])
  {
  }

  /** The input that shows it: the template "greeting" is re-exported as
      `crate::string::GREETING`, while the string module declares
      `pub fn greeting`. */
  lemma {:induction false} TemplateExportBreaks(name: string, t: Template)
    requires name == "greeting"
    ensures UseOf(AsWritten, "string", (name, TemplateValue(t))).value.alias != DeclaredName("string", Leaf(name), TemplateValue(t))
    ensures UseOf(Corrected, "string", (name, TemplateValue(t))).value.path == ["crate", "string", DeclaredName("string", name, TemplateValue(t))]
  {
    Greeting(name);
    TemplateAsWrittenName(name, t, 0);
  }

  // ---------------------------------------------------------------------
  // The corrected export

  /** A namespaced constant is imported from the path a reference to it
      resolves to, where the string module declares it. */
  lemma {:induction false} CorrectedStringPath(strings: seq<(string, Value)>, res: Resources, name: string, v: Value)
    requires (name, v) in strings && |Segments(name)| > 0 && !v.TemplateValue?
    ensures name != [] && UseOf(Corrected, "string", (name, v)).Some?
    ensures UseOf(Corrected, "string", (name, v)).value.path == PathSegments("string", name, true)
    ensures Contains(GenerateStringModule(strings, res), ItemCode(StringModule, (Leaf(name), v), 4 + 4 * |Dir(name)|, res))
  {
    if name == [] {
      EmptySegments(name);
    }
    StringEmittedWhereReferenced(strings, res, name, v);
  }

  /** A namespaced integer is imported from the path its module
      declares it at. */
  lemma {:induction false} CorrectedIntPath(ints: seq<(string, Value)>, name: string, i: I64)
    requires (name, IntValue(i)) in ints && |Segments(name)| > 0
    ensures UseOf(Corrected, "int", (name, IntValue(i))).Some?
    ensures UseOf(Corrected, "int", (name, IntValue(i))).value.path == ["crate", "int"] + Dir(name) + [ConstName(Leaf(name))]
    ensures Contains(GenerateIntModule(ints),
                     Spaces(4 + 4 * |Dir(name)|) + "pub const " + ConstName(Leaf(name)) + ": i64 = " + IntToString(i) + ";\n")
  {
    CorrectedIntUse(name, i);
    IntEmitted(ints, name, i);
  }

  lemma {:induction false} CorrectedIntUse(name: string, i: I64)
    requires |Segments(name)| > 0
    ensures UseOf(Corrected, "int", (name, IntValue(i))).Some?
    ensures UseOf(Corrected, "int", (name, IntValue(i))).value.path == ["crate", "int"] + Dir(name) + [ConstName(Leaf(name))]
  {
    if name == [] {
      EmptySegments(name);
    }
  }
}
