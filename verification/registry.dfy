/** `TypeRegistry` (generator/ir/types/mod.rs): an ordered list of resource
    type handlers, searched front to back. The handler objects are modelled
    as a closed enumeration of the five handlers the generator defines. */
module Registry {
  import opened Wrappers
  import opened Model
  import Ast
  import Number
  import Template
  import Scalars

  datatype Handler = StringHandler | NumberHandler | BoolHandler | ColorHandler | TemplateHandler {

    /** `name`. */
    function Name(): string {
      match this
      case StringHandler => "string"
      case NumberHandler => Number.TypeName
      case BoolHandler => "bool"
      case ColorHandler => "color"
      case TemplateHandler => Template.TypeName
    }

    /** `xml_tags`. */
    function XmlTags(): seq<string> {
      match this
      case StringHandler => ["string"]
      case NumberHandler => Number.XmlTags
      case BoolHandler => ["bool"]
      case ColorHandler => ["color"]
      case TemplateHandler => Template.XmlTags
    }

    /** `resource_kind`. */
    function Kind(): ResourceKind {
      match this
      case StringHandler => StringKind
      case NumberHandler => NumberKind
      case BoolHandler => BoolKind
      case ColorHandler => ColorKind
      case TemplateHandler => TemplateKind
    }

    /** `build_node`; the number handler needs the float and decimal
        syntax it delegates to. */
    function BuildNode(syn: Number.NumberSyntax, parsed: Ast.ParsedResource, origin: ResourceOrigin): (r: Option<ResourceNode>)
      ensures r.Some? ==> r.value.kind == Kind() && r.value.origin == origin
    {
      match this
      case StringHandler => Scalars.StringBuildNode(parsed, origin)
      case NumberHandler => Number.BuildNode(syn, parsed, origin)
      case BoolHandler => Scalars.BoolBuildNode(parsed, origin)
      case ColorHandler => Scalars.ColorBuildNode(parsed, origin)
      case TemplateHandler => Template.BuildNode(parsed, origin)
    }

    /** `emit_rust`. */
    function Emit(key: ResourceKey, node: ResourceNode, indent: nat): Option<string> {
      match this
      case StringHandler => Scalars.StringEmit(key, node, indent)
      case NumberHandler => Number.Emit(key, node, indent)
      case BoolHandler => Scalars.BoolEmit(key, node, indent)
      case ColorHandler => Scalars.ColorEmit(key, node, indent)
      case TemplateHandler => Template.Emit(key, node, indent)
    }
  }

  /** A handler only emits the kind of value it builds. */
  lemma {:induction false} EmitMatchesKind(h: Handler, key: ResourceKey, node: ResourceNode, indent: nat)
    ensures h.Emit(key, node, indent).Some? <==>
              match h
              case StringHandler => node.value.StringValue?
              case NumberHandler => node.value.NumberVal?
              case BoolHandler => node.value.BoolValue?
              case ColorHandler => node.value.ColorValue?
              case TemplateHandler => node.value.TemplateValue?
  {
  }

  type TypeRegistry = seq<Handler>

  /** `TypeRegistry::new`. */
  const EmptyRegistry: TypeRegistry := []

  /** `register`: the handler goes after those already registered. */
  function Register(reg: TypeRegistry, h: Handler): (r: TypeRegistry)
    ensures |r| == |reg| + 1 && r[|reg|] == h
    ensures r[..|reg|] == reg
  {
    reg + [h]
  }

  /** `all`: the handlers in registration order. */
  function All(reg: TypeRegistry): (r: seq<Handler>)
    ensures |r| == |reg|
    ensures forall i :: 0 <= i < |reg| ==> r[i] == reg[i]
  {
    reg
  }

  /** `find_by_name`: the first handler with that name, if any. */
  function FindByName(reg: TypeRegistry, name: string): (r: Option<Handler>)
    ensures r.None? <==> forall i :: 0 <= i < |reg| ==> reg[i].Name() != name
    ensures r.Some? ==> exists i :: 0 <= i < |reg| && reg[i] == r.value && r.value.Name() == name
                                    && forall j :: 0 <= j < i ==> reg[j].Name() != name
  {
    if |reg| == 0 then None
    else if reg[0].Name() == name then Some(reg[0])
    else
      FindByName(reg[1..], name)
  }

  /** `find_by_xml_tag`: the first handler whose tag list holds the tag. */
  function FindByXmlTag(reg: TypeRegistry, tag: string): (r: Option<Handler>)
    ensures r.None? <==> forall i :: 0 <= i < |reg| ==> tag !in reg[i].XmlTags()
    ensures r.Some? ==> exists i :: 0 <= i < |reg| && reg[i] == r.value && tag in r.value.XmlTags()
                                    && forall j :: 0 <= j < i ==> tag !in reg[j].XmlTags()
  {
    if |reg| == 0 then None
    else if tag in reg[0].XmlTags() then Some(reg[0])
    else
      FindByXmlTag(reg[1..], tag)
  }

  /** `TypeRegistry::default`: string, number, bool and colour, in that
      order. The template handler is not registered. */
  function Default(): (r: TypeRegistry)
    ensures All(r) == [StringHandler, NumberHandler, BoolHandler, ColorHandler]
  {
    Register(Register(Register(Register(EmptyRegistry, StringHandler), NumberHandler), BoolHandler), ColorHandler)
  }

  /** Looking up the default registry: each of its handlers by its own
      name, and nothing under "template". */
  lemma {:induction false} DefaultFindByName()
    ensures FindByName(Default(), "string") == Some(StringHandler)
    ensures FindByName(Default(), "number") == Some(NumberHandler)
    ensures FindByName(Default(), "bool") == Some(BoolHandler)
    ensures FindByName(Default(), "color") == Some(ColorHandler)
    ensures FindByName(Default(), "template") == None
  {
    var d := Default();
    assert d == [StringHandler, NumberHandler, BoolHandler, ColorHandler];
    forall h: Handler ensures h.Name() == "template" <==> h == TemplateHandler {}
  }

  /** The number handler answers to the "int" and "float" tags as well. */
  lemma {:induction false} DefaultFindByXmlTag()
    ensures FindByXmlTag(Default(), "int") == Some(NumberHandler)
    ensures FindByXmlTag(Default(), "float") == Some(NumberHandler)
    ensures FindByXmlTag(Default(), "template") == None
  {
    var d := Default();
    assert d == [StringHandler, NumberHandler, BoolHandler, ColorHandler];
    assert "int" !in StringHandler.XmlTags() && "float" !in StringHandler.XmlTags();
    assert "int" in NumberHandler.XmlTags() && "float" in NumberHandler.XmlTags();
    forall h: Handler ensures "template" in h.XmlTags() <==> h == TemplateHandler {}
  }

  /** Registering a handler never changes what an earlier match finds. */
  lemma {:induction false} RegisterKeepsFirstMatch(reg: TypeRegistry, h: Handler, name: string)
    requires FindByName(reg, name).Some?
    ensures FindByName(Register(reg, h), name) == FindByName(reg, name)
    decreases |reg|
  {
    if reg[0].Name() != name {
      assert Register(reg, h)[1..] == Register(reg[1..], h);
      RegisterKeepsFirstMatch(reg[1..], h, name);
    }
  }
}
