/** The parsed form of a resource file (generator/parsing/ast.rs): what the
    reader produces and the graph builder consumes. The `Template` kind and
    value are included as the template handler uses them. */
module Ast {
  import opened Wrappers

  datatype Kind = StringKind | NumberKind | BoolKind | ColorKind | TemplateKind

  datatype ScalarValue =
    | Text(text: string)
    | Number(numberText: string, explicitType: Option<string>)
    | Bool(flag: bool)
    | Color(hex: string)
    | Template(template: string, params: seq<TemplateParam>)
  {
    /** `as_text`: the text of a Text or Number value. */
    function AsText(): (r: Option<string>)
      ensures r.Some? <==> Text? || Number?
      ensures Text? ==> r == Some(text)
      ensures Number? ==> r == Some(numberText)
    {
      match this
      case Text(t) => Some(t)
      case Number(v, _) => Some(v)
      case _ => None
    }

    /** `as_number`: the literal of a Number value only. */
    function AsNumber(): (r: Option<string>)
      ensures r.Some? <==> Number?
      ensures Number? ==> r == Some(numberText)
    {
      if Number? then Some(numberText) else None
    }

    /** `number_explicit_type`: the `type` attribute of a Number value. */
    function NumberExplicitType(): (r: Option<string>)
      ensures !Number? ==> r.None?
      ensures Number? ==> r == explicitType
    {
      if Number? then explicitType else None
    }

    /** `as_color`: the hex text of a Color value only. */
    function AsColor(): (r: Option<string>)
      ensures r.Some? <==> Color?
      ensures Color? ==> r == Some(hex)
    {
      if Color? then Some(hex) else None
    }

    /** `as_bool`: the flag of a Bool value only. */
    function AsBool(): (r: Option<bool>)
      ensures r.Some? <==> Bool?
      ensures Bool? ==> r == Some(flag)
    {
      if Bool? then Some(flag) else None
    }
  }

  datatype TemplateParam = TemplateParam(name: string, value: ScalarValue)

  datatype ParsedResource = ParsedResource(name: string, kind: Kind, value: ScalarValue)

  datatype ParsedResourceFile = ParsedResourceFile(path: string, isTest: bool, resources: seq<ParsedResource>)

  /** `ParsedResource::string`. */
  function StringResource(name: string, value: string): (r: ParsedResource)
    ensures r.name == name && r.kind == StringKind
    ensures r.value.AsText() == Some(value) && r.value.AsNumber().None?
  {
    ParsedResource(name, StringKind, Text(value))
  }

  /** `ParsedResource::number`: the literal and the hint are kept as given. */
  function NumberResource(name: string, value: string, explicitType: Option<string>): (r: ParsedResource)
    ensures r.name == name && r.kind == NumberKind
    ensures r.value.AsNumber() == Some(value) && r.value.AsText() == Some(value)
    ensures r.value.NumberExplicitType() == explicitType
  {
    ParsedResource(name, NumberKind, Number(value, explicitType))
  }

  /** `ParsedResource::bool`. */
  function BoolResource(name: string, value: bool): (r: ParsedResource)
    ensures r.name == name && r.kind == BoolKind
    ensures r.value.AsBool() == Some(value) && r.value.AsText().None?
  {
    ParsedResource(name, BoolKind, Bool(value))
  }
}
