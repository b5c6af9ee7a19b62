/** The string, bool and colour handlers (generator/ir/types/string.rs,
    bool.rs, color.rs): each accepts its own parsed value and emits one
    `pub const` named after the key's last segment. */
module Scalars {
  import opened Wrappers
  import opened Text
  import opened Identifiers
  import opened Model
  import opened RustCode
  import Ast

  // ---------------------------------------------------------------------
  // string

  /** `StringType::build_node`. */
  function StringBuildNode(parsed: Ast.ParsedResource, origin: ResourceOrigin): (r: Option<ResourceNode>)
    ensures r.Some? <==> parsed.value.Text?
    ensures r.Some? ==> r.value == ResourceNode(StringKind, StringValue(parsed.value.text), origin)
  {
    if parsed.value.Text? then Some(ResourceNode(StringKind, StringValue(parsed.value.text), origin)) else None
  }

  /** `StringType::emit_rust`: a `&str` constant whose literal reads back
      as the stored text; the key's namespace plays no part. */
  function StringEmit(key: ResourceKey, node: ResourceNode, indent: nat): (r: Option<string>)
    ensures r.Some? <==> node.value.StringValue?
    ensures r.Some? ==>
              DecodeConstLine(r.value) == Some(ConstDecl(indent, ConstName(key.name), "&str", StrLiteral(node.value.text)))
              && UnquoteLiteral(StrLiteral(node.value.text)) == Some(node.value.text)
  {
    match node.value
    case StringValue(text) =>
      StrConstRoundTrip(indent, ConstName(key.name), text);
      Some(ConstLine(indent, ConstName(key.name), "&str", StrLiteral(text)))
    case _ => None
  }

  // ---------------------------------------------------------------------
  // bool

  /** `BoolType::build_node`. */
  function BoolBuildNode(parsed: Ast.ParsedResource, origin: ResourceOrigin): (r: Option<ResourceNode>)
    ensures r.Some? <==> parsed.value.Bool?
    ensures r.Some? ==> r.value == ResourceNode(BoolKind, BoolValue(parsed.value.flag), origin)
  {
    if parsed.value.Bool? then Some(ResourceNode(BoolKind, BoolValue(parsed.value.flag), origin)) else None
  }

  /** Rust's rendering of a `bool`. */
  function BoolLiteral(b: bool): string {
    if b then "true" else "false"
  }

  /** Reading a Rust `bool` literal. */
  function ParseBoolLiteral(s: string): Option<bool> {
    if s == "true" then Some(true) else if s == "false" then Some(false) else None
  }

  /** `BoolType::emit_rust`: a `bool` constant whose value reads back as the
      stored flag. */
  function BoolEmit(key: ResourceKey, node: ResourceNode, indent: nat): (r: Option<string>)
    ensures r.Some? <==> node.value.BoolValue?
    ensures r.Some? ==>
              exists v :: DecodeConstLine(r.value) == Some(ConstDecl(indent, ConstName(key.name), "bool", v))
                          && ParseBoolLiteral(v) == Some(node.value.flag)
  {
    match node.value
    case BoolValue(flag) =>
      ConstLineRoundTrip(indent, ConstName(key.name), "bool", BoolLiteral(flag));
      assert ParseBoolLiteral(BoolLiteral(flag)) == Some(flag);
      Some(ConstLine(indent, ConstName(key.name), "bool", BoolLiteral(flag)))
    case _ => None
  }

  // ---------------------------------------------------------------------
  // color

  /** `ColorType::build_node`. */
  function ColorBuildNode(parsed: Ast.ParsedResource, origin: ResourceOrigin): (r: Option<ResourceNode>)
    ensures r.Some? <==> parsed.value.Color?
    ensures r.Some? ==> r.value == ResourceNode(ColorKind, ColorValue(parsed.value.hex), origin)
  {
    if parsed.value.Color? then Some(ResourceNode(ColorKind, ColorValue(parsed.value.hex), origin)) else None
  }

  /** `ColorType::emit_rust`: the colour text as a `&str` constant. */
  function ColorEmit(key: ResourceKey, node: ResourceNode, indent: nat): (r: Option<string>)
    ensures r.Some? <==> node.value.ColorValue?
    ensures r.Some? ==>
              DecodeConstLine(r.value) == Some(ConstDecl(indent, ConstName(key.name), "&str", StrLiteral(node.value.hex)))
              && UnquoteLiteral(StrLiteral(node.value.hex)) == Some(node.value.hex)
  {
    match node.value
    case ColorValue(hex) =>
      StrConstRoundTrip(indent, ConstName(key.name), hex);
      Some(ConstLine(indent, ConstName(key.name), "&str", StrLiteral(hex)))
    case _ => None
  }

  /** Building a node and emitting it gives back the parsed value: the
      emitted constant of a parsed text, flag or colour reads back as it. */
  lemma {:induction false} StringBuildEmit(parsed: Ast.ParsedResource, origin: ResourceOrigin, key: ResourceKey, indent: nat)
    requires parsed.value.Text?
    ensures StringBuildNode(parsed, origin).Some?
    ensures var out := StringEmit(key, StringBuildNode(parsed, origin).value, indent);
            out.Some? && DecodeConstLine(out.value).Some?
            && UnquoteLiteral(DecodeConstLine(out.value).value.value) == Some(parsed.value.text)
  {
  }

  lemma {:induction false} BoolBuildEmit(parsed: Ast.ParsedResource, origin: ResourceOrigin, key: ResourceKey, indent: nat)
    requires parsed.value.Bool?
    ensures BoolBuildNode(parsed, origin).Some?
    ensures var out := BoolEmit(key, BoolBuildNode(parsed, origin).value, indent);
            out.Some? && DecodeConstLine(out.value).Some?
            && ParseBoolLiteral(DecodeConstLine(out.value).value.value) == Some(parsed.value.flag)
  {
  }
}
