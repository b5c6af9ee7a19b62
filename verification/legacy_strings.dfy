/** The string, int and bool modules of the legacy generator
    (codegen/generator/basic.rs). Each name is split on '/' into
    namespaces and a leaf; the namespaces become nested `pub mod`s, the
    leaf a constant (or, for a template, a function) in the innermost
    one. */
module LegacyStrings {
  import opened Wrappers
  import opened Text
  import opened Identifiers
  import opened Tree
  import opened LegacyTypes
  import opened LegacyReferences
  import opened LegacyResolve
  import opened LegacyTemplates

  // ---------------------------------------------------------------------
  // Constant lines

  /** `emit_string_constant`: a `&str` constant holding the escaped text. */
  function StringConst(indent: nat, name: string, value: string): string {
    Spaces(indent) + "pub const " + name + ": &str = \"" + EscapeDebug(value) + "\";\n"
  }

  /** The text of the literal in a string constant reads back as the
      value: the constant holds exactly the resource's text. */
  lemma {:induction false} StringConstHolds(indent: nat, name: string, value: string)
    ensures var line := StringConst(indent, name, value);
            var pre := Spaces(indent) + "pub const " + name + ": &str = \"";
            line == pre + EscapeDebug(value) + "\";\n" && UnescapeDebug(line[|pre|..|line| - 3]) == Some(value)
  {
    var pre := Spaces(indent) + "pub const " + name + ": &str = \"";
    var line := StringConst(indent, name, value);
    assert line == pre + EscapeDebug(value) + "\";\n";
    assert line[|pre|..|line| - 3] == EscapeDebug(value);
    EscapeDebugRoundTrip(value);
  }

  /** `emit_reference_constant`: a constant defined as the path of the
      constant it refers to. */
  function ReferenceConst(indent: nat, name: string, ty: string, key: string): string {
    Spaces(indent) + "pub const " + name + ": &str = " + ReferencePath(ty, key, true) + ";\n"
  }

  // ---------------------------------------------------------------------
  // The namespace tree

  /** A leaf name and its value, as held by a node. */
  type Item = (string, Value)

  /** The non-empty pieces of a name between '/'s. */
  function Segments(name: string): (r: seq<string>)
    ensures forall i :: 0 <= i < |r| ==> r[i] != [] && '/' !in r[i]
  {
    NonEmpty(Split(name, '/'))
  }

  /** The namespaces of a name: every segment but the last, sanitized. */
  function Dir(name: string): seq<string> {
    var parts := Segments(name);
    if |parts| == 0 then [] else SanitizeAll(parts[..|parts| - 1])
  }

  /** The leaf of a name: its last segment, as written. */
  function Leaf(name: string): string {
    var parts := Segments(name);
    if |parts| == 0 then "" else parts[|parts| - 1]
  }

  /** `insert`: walk down the sanitized namespaces, creating missing
      nodes, and append the leaf with its value to the last one. A name
      with no non-empty segment is not inserted anywhere. */
  function InsertName(node: NamespaceNode<Item>, name: string, v: Value): (r: NamespaceNode<Item>)
    requires WellFormed(node)
    ensures WellFormed(r)
  {
    if |Segments(name)| == 0 then node else InsertKey(node, Dir(name), (Leaf(name), v))
  }

  /** The tree of `items`, inserted in their order. */
  function BuildItemTree(items: seq<(string, Value)>): (r: NamespaceNode<Item>)
    ensures WellFormed(r)
    decreases |items|
  {
    if |items| == 0 then EmptyNode()
    else
      var last := items[|items| - 1];
      InsertName(BuildItemTree(items[..|items| - 1]), last.0, last.1)
  }

  /** Reference definition of a node's contents: the leaves, with their
      values, of the names whose namespaces are `q`, in input order. */
  function ItemsIn(items: seq<(string, Value)>, q: seq<string>): seq<Item>
    decreases |items|
  {
    if |items| == 0 then []
    else
      var last := items[|items| - 1];
      ItemsIn(items[..|items| - 1], q)
      + (if |Segments(last.0)| > 0 && Dir(last.0) == q then [(Leaf(last.0), last.1)] else [])
  }

  /** The node at `q` holds exactly the items whose namespaces are `q`, in
      input order; names without segments are held nowhere. */
  lemma {:induction false} BuildItemTreeItems(items: seq<(string, Value)>, q: seq<string>)
    ensures KeysAt(BuildItemTree(items), q) == ItemsIn(items, q)
    decreases |items|
  {
    if |items| == 0 {
      EmptyNodeAt<Item>(q);
    } else {
      var init := items[..|items| - 1];
      var last := items[|items| - 1];
      BuildItemTreeItems(init, q);
      if |Segments(last.0)| > 0 {
        InsertKeyAt(BuildItemTree(init), Dir(last.0), (Leaf(last.0), last.1), q);
      }
    }
  }

  /** An item with a segment is listed under its own namespaces. */
  lemma {:induction false} ItemsInHolds(items: seq<(string, Value)>, i: nat)
    requires i < |items| && |Segments(items[i].0)| > 0
    ensures (Leaf(items[i].0), items[i].1) in ItemsIn(items, Dir(items[i].0))
    decreases |items|
  {
    var init := items[..|items| - 1];
    if i < |items| - 1 {
      assert init[i] == items[i];
      ItemsInHolds(init, i);
    }
  }

  /** The tree holds every item with a segment in the node of its
      namespaces. */
  lemma {:induction false} ItemPlaced(items: seq<(string, Value)>, i: nat)
    requires i < |items| && |Segments(items[i].0)| > 0
    ensures (Leaf(items[i].0), items[i].1) in KeysAt(BuildItemTree(items), Dir(items[i].0))
  {
    ItemsInHolds(items, i);
    BuildItemTreeItems(items, Dir(items[i].0));
  }

  /** Keys at a path are only found at a node that exists. */
  lemma {:induction false} KeysAtNode<T>(node: NamespaceNode<T>, q: seq<string>, x: T)
    requires x in KeysAt(node, q)
    ensures At(node, q).Some? && x in At(node, q).value.items
  {
  }

  // ---------------------------------------------------------------------
  // Emission

  /** Which module a tree is emitted for. */
  datatype ModuleKind = StringModule | IntModule | BoolModule

  /** The code of one item. In the string module a plain string, a
      reference, an interpolation (resolved now) and a template (a
      function with the leaf in lower case) each have their form and any
      other value is skipped; the int and bool modules hold only their
      own values. */
  function ItemCode(kind: ModuleKind, item: Item, indent: nat, res: Resources): string {
    var name := ConstName(item.0);
    match (kind, item.1)
    case (StringModule, StringValue(s)) => StringConst(indent, name, s)
    case (StringModule, Reference(ty, key)) => ReferenceConst(indent, name, ty, key)
    case (StringModule, Interpolated(parts)) => StringConst(indent, name, InterpolatedText(parts, res))
    case (StringModule, TemplateValue(t)) => EmitTemplateFunction(ToLower(Sanitize(item.0)), t, indent)
    case (IntModule, IntValue(i)) => Spaces(indent) + "pub const " + name + ": i64 = " + IntToString(i) + ";\n"
    case (BoolModule, BoolValue(b)) => Spaces(indent) + "pub const " + name + ": bool = " + (if b then "true" else "false") + ";\n"
    case _ => ""
  }

  /** A child namespace: its `pub mod` line, its contents one level
      deeper, and the closing brace. */
  function ModBlock(name: string, body: string, indent: nat): string {
    Spaces(indent) + "pub mod " + name + " {\n" + body + Spaces(indent) + "}\n"
  }

  /** The blocks of a node's children, in name order. */
  function ChildBlocks(kind: ModuleKind, node: NamespaceNode<Item>, indent: nat, res: Resources): (r: seq<string>)
    ensures |r| == |node.children|
    decreases node, 0
  {
    var cs := node.children;
    seq(|cs|, i requires 0 <= i < |cs| => ModBlock(cs[i].0, EmitNode(kind, cs[i].1, indent + 4, res), indent))
  }

  /** The code of a node's items, in their order. */
  function ItemBlocks(kind: ModuleKind, items: seq<Item>, indent: nat, res: Resources): (r: seq<string>)
    ensures |r| == |items|
  {
    seq(|items|, j requires 0 <= j < |items| => ItemCode(kind, items[j], indent, res))
  }

  /** `emit_node`: the children first, then the node's own items. */
  function EmitNode(kind: ModuleKind, node: NamespaceNode<Item>, indent: nat, res: Resources): string
    decreases node, 1
  {
    Concat(ChildBlocks(kind, node, indent, res)) + Concat(ItemBlocks(kind, node.items, indent, res))
  }

  lemma {:induction false} EmitNodeOwnItem(kind: ModuleKind, node: NamespaceNode<Item>, indent: nat, res: Resources, x: Item)
    requires x in node.items
    ensures Contains(EmitNode(kind, node, indent, res), ItemCode(kind, x, indent, res))
  {
    var blocks := ItemBlocks(kind, node.items, indent, res);
    var children := Concat(ChildBlocks(kind, node, indent, res));
    var j :| 0 <= j < |node.items| && node.items[j] == x;
    ConcatContains(blocks, j);
    ContainsMiddle(children, Concat(blocks), []);
    assert children + Concat(blocks) + [] == EmitNode(kind, node, indent, res);
    ContainsTrans(EmitNode(kind, node, indent, res), Concat(blocks), blocks[j]);
  }

  /** A child's block holds the child's code. */
  lemma {:induction false} ChildBlockHolds(kind: ModuleKind, node: NamespaceNode<Item>, indent: nat, res: Resources, i: nat)
    requires i < |node.children|
    ensures Contains(ChildBlocks(kind, node, indent, res)[i], EmitNode(kind, node.children[i].1, indent + 4, res))
  {
    var c := node.children[i];
    var inner := EmitNode(kind, c.1, indent + 4, res);
    var open := Spaces(indent) + "pub mod " + c.0 + " {\n";
    assert ChildBlocks(kind, node, indent, res)[i] == open + inner + (Spaces(indent) + "}\n");
    ContainsMiddle(open, inner, Spaces(indent) + "}\n");
  }

  lemma {:induction false} EmitNodeChild(kind: ModuleKind, node: NamespaceNode<Item>, indent: nat, res: Resources, i: nat)
    requires i < |node.children|
    ensures Contains(EmitNode(kind, node, indent, res), EmitNode(kind, node.children[i].1, indent + 4, res))
  {
    ChildBlockHolds(kind, node, indent, res, i);
    ContainsInParts(ChildBlocks(kind, node, indent, res), Concat(ItemBlocks(kind, node.items, indent, res)), i,
                    EmitNode(kind, node.children[i].1, indent + 4, res));
  }

  /** The code of an item held `|q|` levels below `node` appears in the
      node's code, four spaces deeper per level. */
  lemma {:induction false} EmitNodeContains(kind: ModuleKind, node: NamespaceNode<Item>, indent: nat, res: Resources, q: seq<string>, x: Item, depth: nat)
    requires At(node, q).Some? && x in At(node, q).value.items
    requires depth == indent + 4 * |q|
    ensures Contains(EmitNode(kind, node, indent, res), ItemCode(kind, x, depth, res))
    decreases |q|
  {
    if |q| == 0 {
      EmitNodeOwnItem(kind, node, indent, res, x);
    } else {
      var c := Tree.Lookup(node.children, q[0]).value;
      var i :| 0 <= i < |node.children| && node.children[i] == (q[0], c);
      EmitNodeContains(kind, c, indent + 4, res, q[1..], x, depth);
      EmitNodeChild(kind, node, indent, res, i);
      ContainsTrans(EmitNode(kind, node, indent, res), EmitNode(kind, c, indent + 4, res), ItemCode(kind, x, depth, res));
    }
  }

  // ---------------------------------------------------------------------
  // The modules

  /** `generate_string_module`: every string resource goes into the tree,
      whatever its value. */
  function GenerateStringModule(strings: seq<(string, Value)>, res: Resources): string {
    "\npub mod string {\n" + EmitNode(StringModule, BuildItemTree(strings), 4, res) + "}\n"
  }

  /** The resources holding an `IntValue`, in order. */
  function IntsOnly(items: seq<(string, Value)>): (r: seq<(string, Value)>)
    ensures forall i :: 0 <= i < |r| ==> r[i].1.IntValue? && r[i] in items
    ensures forall i :: 0 <= i < |items| && items[i].1.IntValue? ==> items[i] in r
  {
    if |items| == 0 then []
    else (if items[0].1.IntValue? then [items[0]] else []) + IntsOnly(items[1..])
  }

  /** The resources holding a `BoolValue`, in order. */
  function BoolsOnly(items: seq<(string, Value)>): (r: seq<(string, Value)>)
    ensures forall i :: 0 <= i < |r| ==> r[i].1.BoolValue? && r[i] in items
    ensures forall i :: 0 <= i < |items| && items[i].1.BoolValue? ==> items[i] in r
  {
    if |items| == 0 then []
    else (if items[0].1.BoolValue? then [items[0]] else []) + BoolsOnly(items[1..])
  }

  /** `generate_int_module`: only integer values enter the tree. */
  function GenerateIntModule(ints: seq<(string, Value)>): string {
    "\npub mod int {\n" + EmitNode(IntModule, BuildItemTree(IntsOnly(ints)), 4, map[]) + "}\n"
  }

  /** `generate_bool_module`: only boolean values enter the tree. */
  function GenerateBoolModule(bools: seq<(string, Value)>): string {
    "\npub mod bool {\n" + EmitNode(BoolModule, BuildItemTree(BoolsOnly(bools)), 4, map[]) + "}\n"
  }

  /** An item of `items` is emitted at the depth of its namespaces. */
  lemma {:induction false} ItemEmitted(kind: ModuleKind, items: seq<(string, Value)>, res: Resources, name: string, v: Value)
    requires (name, v) in items && |Segments(name)| > 0
    ensures Contains(EmitNode(kind, BuildItemTree(items), 4, res), ItemCode(kind, (Leaf(name), v), 4 + 4 * |Dir(name)|, res))
  {
    var i :| 0 <= i < |items| && items[i] == (name, v);
    ItemPlaced(items, i);
    ItemInTreeEmitted(kind, BuildItemTree(items), res, name, v);
  }

  lemma {:induction false} ItemInTreeEmitted(kind: ModuleKind, tree: NamespaceNode<Item>, res: Resources, name: string, v: Value)
    requires (Leaf(name), v) in KeysAt(tree, Dir(name))
    ensures Contains(EmitNode(kind, tree, 4, res), ItemCode(kind, (Leaf(name), v), 4 + 4 * |Dir(name)|, res))
  {
    KeysAtNode(tree, Dir(name), (Leaf(name), v));
    EmitNodeContains(kind, tree, 4, res, Dir(name), (Leaf(name), v), 4 + 4 * |Dir(name)|);
  }

  /** A reference to a name with a segment points into the namespaces
      of the name, at the constant of its leaf. */
  lemma {:induction false} ReferencedPath(ty: string, name: string)
    requires |Segments(name)| > 0
    ensures PathSegments(ty, name, true) == ["crate", ty] + Dir(name) + [ConstName(Leaf(name))]
  {
    var parts := Segments(name);
    assert PathSegments(ty, name, true) == ["crate"] + [ty] + Dir(name) + [ConstName(Leaf(name))];
    assert ["crate"] + [ty] == ["crate", ty];
  }

  /** A reference to a resource points into the module path
      `crate::string::<namespaces>` and ends in the constant name of the
      leaf, as `resolve_reference_path` computes them, and the string
      module holds the resource's code in that namespace. Unless the
      resource is a template, the code declares that very constant; a
      template is declared as a function named after its lower-case leaf
      instead. */
  lemma {:induction false} StringEmittedWhereReferenced(strings: seq<(string, Value)>, res: Resources, name: string, v: Value)
    requires (name, v) in strings && |Segments(name)| > 0
    ensures PathSegments("string", name, true) == ["crate", "string"] + Dir(name) + [ConstName(Leaf(name))]
    ensures Contains(GenerateStringModule(strings, res), ItemCode(StringModule, (Leaf(name), v), 4 + 4 * |Dir(name)|, res))
    ensures v.StringValue? || v.Reference? || v.Interpolated? ==>
              Spaces(4 + 4 * |Dir(name)|) + "pub const " + ConstName(Leaf(name)) + ": &str = "
              <= ItemCode(StringModule, (Leaf(name), v), 4 + 4 * |Dir(name)|, res)
    ensures v.TemplateValue? ==>
              Spaces(4 + 4 * |Dir(name)|) + "#[must_use]\n" + Spaces(4 + 4 * |Dir(name)|) + "pub fn " + ToLower(Sanitize(Leaf(name))) + "("
              <= ItemCode(StringModule, (Leaf(name), v), 4 + 4 * |Dir(name)|, res)
  {
    ItemDeclares(Leaf(name), v, 4 + 4 * |Dir(name)|, res);
    var body := EmitNode(StringModule, BuildItemTree(strings), 4, res);
    ReferencedPath("string", name);
    ItemEmitted(StringModule, strings, res, name, v);
    ContainsWrapped("\npub mod string {\n", body, "}\n", ItemCode(StringModule, (Leaf(name), v), 4 + 4 * |Dir(name)|, res));
  }

  /** The string module's code for an item starts by declaring the
      item's name: a `&str` constant for text, a reference or an
      interpolation, a function for a template. */
  lemma {:induction false} ItemDeclares(leaf: string, v: Value, d: nat, res: Resources)
    ensures v.StringValue? || v.Reference? || v.Interpolated? ==>
              Spaces(d) + "pub const " + ConstName(leaf) + ": &str = " <= ItemCode(StringModule, (leaf, v), d, res)
    ensures v.TemplateValue? ==>
              Spaces(d) + "#[must_use]\n" + Spaces(d) + "pub fn " + ToLower(Sanitize(leaf)) + "(" <= ItemCode(StringModule, (leaf, v), d, res)
  {
    if v.TemplateValue? {
      TemplateDeclares(leaf, v, d, res);
    } else if v.StringValue? || v.Reference? || v.Interpolated? {
      TextDeclares(leaf, v, d, res);
    }
  }

  lemma TextDeclares(leaf: string, v: Value, d: nat, res: Resources)
    requires v.StringValue? || v.Reference? || v.Interpolated?
    ensures Spaces(d) + "pub const " + ConstName(leaf) + ": &str = " <= ItemCode(StringModule, (leaf, v), d, res)
  {
    match v
    case StringValue(s) =>
      StringItemCode(leaf, s, d, res);
      StringConstHead(d, ConstName(leaf), s);
    case Reference(ty, key) =>
      ReferenceItemCode(leaf, ty, key, d, res);
      ReferenceConstHead(d, ConstName(leaf), ty, key);
    case Interpolated(parts) =>
      InterpolatedItemCode(leaf, parts, d, res);
      StringConstHead(d, ConstName(leaf), InterpolatedText(parts, res));
  }

  // The string module's code for each kind of text item, one kind at a time.

  lemma StringItemCode(leaf: string, s: string, d: nat, res: Resources)
    ensures ItemCode(StringModule, (leaf, StringValue(s)), d, res) == StringConst(d, ConstName(leaf), s)
  {
  }

  lemma ReferenceItemCode(leaf: string, ty: string, key: string, d: nat, res: Resources)
    ensures ItemCode(StringModule, (leaf, Reference(ty, key)), d, res) == ReferenceConst(d, ConstName(leaf), ty, key)
  {
  }

  lemma InterpolatedItemCode(leaf: string, parts: seq<Part>, d: nat, res: Resources)
    ensures ItemCode(StringModule, (leaf, Interpolated(parts)), d, res) == StringConst(d, ConstName(leaf), InterpolatedText(parts, res))
  {
  }

  lemma TemplateDeclares(leaf: string, v: Value, d: nat, res: Resources)
    requires v.TemplateValue?
    ensures Spaces(d) + "#[must_use]\n" + Spaces(d) + "pub fn " + ToLower(Sanitize(leaf)) + "(" <= ItemCode(StringModule, (leaf, v), d, res)
  {
    FunctionHead(ToLower(Sanitize(leaf)), v.template, d);
  }

  // The declaration that opens a constant line.

  lemma StringConstHead(d: nat, name: string, s: string)
    ensures Spaces(d) + "pub const " + name + ": &str = " <= StringConst(d, name, s)
  {
    assert StringConst(d, name, s) == Spaces(d) + "pub const " + name + ": &str = " + ("\"" + EscapeDebug(s) + "\";\n");
  }

  lemma ReferenceConstHead(d: nat, name: string, ty: string, key: string)
    ensures Spaces(d) + "pub const " + name + ": &str = " <= ReferenceConst(d, name, ty, key)
  {
    assert ReferenceConst(d, name, ty, key) == Spaces(d) + "pub const " + name + ": &str = " + (ReferencePath(ty, key, true) + ";\n");
  }

  /** A reference to a template names a constant the string module never
      declares: it ends in the upper-case leaf, while the template is
      declared as a function of the lower-case leaf, and the two differ at
      every lower-case letter. */
  lemma {:induction false} TemplateReferenceMisses(name: string, k: nat)
    requires |Segments(name)| > 0 && k < |Leaf(name)| && IsAsciiLower(Leaf(name)[k])
    ensures PathSegments("string", name, true)[|PathSegments("string", name, true)| - 1] == ConstName(Leaf(name))
    ensures ConstName(Leaf(name)) != ToLower(Sanitize(Leaf(name)))
  {
    ReferencedPath("string", name);
    var leaf := Leaf(name);
    assert Sanitize(leaf)[k] == leaf[k];
    assert ToLower(Sanitize(leaf))[k] == leaf[k];
    assert !IsAsciiLower(ConstName(leaf)[k]);
  }

  /** A plain string resource becomes a constant, named after its leaf,
      whose literal reads back as the resource's text. */
  lemma {:induction false} PlainStringEmitted(strings: seq<(string, Value)>, res: Resources, name: string, s: string)
    requires (name, StringValue(s)) in strings && |Segments(name)| > 0
    ensures Contains(GenerateStringModule(strings, res), StringConst(4 + 4 * |Dir(name)|, ConstName(Leaf(name)), s))
  {
    StringEmittedWhereReferenced(strings, res, name, StringValue(s));
  }

  /** Every integer resource with a segment is emitted in the int
      module, at the depth of its namespaces. */
  lemma {:induction false} IntEmitted(ints: seq<(string, Value)>, name: string, i: I64)
    requires (name, IntValue(i)) in ints && |Segments(name)| > 0
    ensures Contains(GenerateIntModule(ints),
                     Spaces(4 + 4 * |Dir(name)|) + "pub const " + ConstName(Leaf(name)) + ": i64 = " + IntToString(i) + ";\n")
  {
    var only := IntsOnly(ints);
    ItemEmitted(IntModule, only, map[], name, IntValue(i));
    ContainsWrapped("\npub mod int {\n", EmitNode(IntModule, BuildItemTree(only), 4, map[]), "}\n",
                    ItemCode(IntModule, (Leaf(name), IntValue(i)), 4 + 4 * |Dir(name)|, map[]));
  }

  /** Every boolean resource with a segment is emitted in the bool
      module, at the depth of its namespaces. */
  lemma {:induction false} BoolEmitted(bools: seq<(string, Value)>, name: string, b: bool)
    requires (name, BoolValue(b)) in bools && |Segments(name)| > 0
    ensures Contains(GenerateBoolModule(bools),
                     Spaces(4 + 4 * |Dir(name)|) + "pub const " + ConstName(Leaf(name)) + ": bool = "
                     + (if b then "true" else "false") + ";\n")
  {
    var only := BoolsOnly(bools);
    ItemEmitted(BoolModule, only, map[], name, BoolValue(b));
    ContainsWrapped("\npub mod bool {\n", EmitNode(BoolModule, BuildItemTree(only), 4, map[]), "}\n",
                    ItemCode(BoolModule, (Leaf(name), BoolValue(b)), 4 + 4 * |Dir(name)|, map[]));
  }
}
