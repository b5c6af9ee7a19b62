/** The template handler (generator/ir/types/template.rs): detection and
    counting of positional `%N$s` placeholders, the node it builds from a
    parsed resource, and the const or function it emits. */
module Template {
  import opened Wrappers
  import opened Text
  import opened Identifiers
  import opened Model
  import opened RustCode
  import Ast

  // ---------------------------------------------------------------------
  // Positional placeholders `%N$<spec>`

  /** The conversion letters the scanner accepts after `$`. */
  predicate IsSpec(c: char) {
    c == 's' || c == 'd' || c == 'f' || c == 'x' || c == 'X'
  }

  /** A well-formed placeholder whose '%' is at `i` and whose '$' is at `j`:
      at least one digit between them and a conversion letter after. */
  predicate PlaceholderAt(s: string, i: int, j: int) {
    0 <= i && i + 1 < j && j + 1 < |s|
    && s[i] == '%' && AllDigits(s[i + 1..j]) && s[j] == '$' && IsSpec(s[j + 1])
  }

  /** The reference meaning of `contains_template_placeholders`. */
  ghost predicate HasPlaceholder(s: string) {
    exists i, j :: PlaceholderAt(s, i, j)
  }

  /** Largest `usize` plus one: an index that does not parse is ignored. */
  const UsizeLimit: int := 0x1_0000_0000_0000_0000

  /** The reference meaning of `count_placeholders`: the distinct indices of
      well-formed placeholders that fit a `usize`. */
  function PlaceholderIndices(s: string): set<nat> {
    set i, j | 0 <= i < j < |s| && PlaceholderAt(s, i, j) && DigitsValue(s[i + 1..j]) < UsizeLimit
      :: DigitsValue(s[i + 1..j])
  }

  /** End of the run of ASCII digits starting at `k`. */
  function DigitRunEnd(s: string, k: nat): (r: nat)
    requires k <= |s|
    ensures k <= r <= |s|
    ensures forall m :: k <= m < r ==> IsAsciiDigit(s[m])
    ensures r == |s| || !IsAsciiDigit(s[r])
    decreases |s| - k
  {
    if k < |s| && IsAsciiDigit(s[k]) then DigitRunEnd(s, k + 1) else k
  }

  /** The character scan of `contains_template_placeholders` from position
      `i`: at each '%', digits are consumed, then a '$', and the letter
      after it is only peeked at. */
  function ContainsFrom(s: string, i: nat): bool
    decreases |s| - i
  {
    if i >= |s| then false
    else if s[i] != '%' then ContainsFrom(s, i + 1)
    else
      var j := DigitRunEnd(s, i + 1);
      if j > i + 1 && j < |s| && s[j] == '$' then
        if j + 1 < |s| && IsSpec(s[j + 1]) then true else ContainsFrom(s, j + 1)
      else ContainsFrom(s, j)
  }

  /** `contains_template_placeholders`. */
  function ContainsTemplatePlaceholders(text: string): bool {
    ContainsFrom(text, 0)
  }

  /** The scan of `count_placeholders` from position `i`: the same walk,
      collecting each index that parses as a `usize`. */
  function CollectFrom(s: string, i: nat): set<nat>
    decreases |s| - i
  {
    if i >= |s| then {}
    else if s[i] != '%' then CollectFrom(s, i + 1)
    else
      var j := DigitRunEnd(s, i + 1);
      if j > i + 1 && j < |s| && s[j] == '$' then
        FoundAt(s, i, j) + CollectFrom(s, j + 1)
      else CollectFrom(s, j)
  }

  /** `count_placeholders`. */
  function CountPlaceholders(text: string): nat {
    |CollectFrom(text, 0)|
  }

  lemma {:induction false} AllDigitsRun(s: string, i: nat, j: nat)
    requires i <= j <= |s|
    ensures AllDigits(s[i..j]) <==> forall m :: i <= m < j ==> IsAsciiDigit(s[m])
  {
    if AllDigits(s[i..j]) {
      forall m | i <= m < j ensures IsAsciiDigit(s[m]) {
        assert s[i..j][m - i] == s[m];
      }
    }
  }

  /** A placeholder starting at a '%' ends at the end of its digit run. */
  lemma {:induction false} PlaceholderEnd(s: string, i: nat, b: int)
    requires PlaceholderAt(s, i, b)
    ensures b == DigitRunEnd(s, i + 1)
  {
    var j := DigitRunEnd(s, i + 1);
    AllDigitsRun(s, i + 1, b);
  }

  /** The scan from `i` finds a placeholder exactly when one starts at or
      after `i`. */
  lemma {:induction false} ContainsFromMeaning(s: string, i: nat)
    ensures ContainsFrom(s, i) <==> exists a, b :: i <= a && PlaceholderAt(s, a, b)
    decreases |s| - i
  {
    if i < |s| && s[i] != '%' {
      ContainsFromMeaning(s, i + 1);
      assert forall a, b :: i <= a && PlaceholderAt(s, a, b) ==> a != i;
    } else if i < |s| {
      var j := DigitRunEnd(s, i + 1);
      AllDigitsRun(s, i + 1, j);
      // Between the '%' and the end of the scanned run there is no '%'.
      assert forall a, b :: i < a <= j && a < |s| && PlaceholderAt(s, a, b) ==> a == j && s[j] != '$';
      forall b | PlaceholderAt(s, i, b) ensures b == j {
        PlaceholderEnd(s, i, b);
      }
      if j > i + 1 && j < |s| && s[j] == '$' {
        if j + 1 < |s| && IsSpec(s[j + 1]) {
          assert PlaceholderAt(s, i, j);
        } else {
          ContainsFromMeaning(s, j + 1);
        }
      } else {
        ContainsFromMeaning(s, j);
      }
    }
  }

  /** `contains_template_placeholders` decides `HasPlaceholder`. */
  lemma {:induction false} ContainsTemplatePlaceholdersMeaning(text: string)
    ensures ContainsTemplatePlaceholders(text) <==> HasPlaceholder(text)
  {
    ContainsFromMeaning(text, 0);
  }

  /** The indices of placeholders starting at or after `i`. */
  function IndicesFrom(s: string, i: nat): set<nat> {
    set a, b | i <= a < b < |s| && PlaceholderAt(s, a, b) && DigitsValue(s[a + 1..b]) < UsizeLimit
      :: DigitsValue(s[a + 1..b])
  }

  /** Where a placeholder can start relative to the scan at a '%' at `i`:
      either at `i`, ending at the digit run's end, or at or after that end. */
  lemma {:induction false} PlaceholderStart(s: string, i: nat, a: int, b: int)
    requires i < |s| && s[i] == '%' && i <= a && PlaceholderAt(s, a, b)
    ensures a == i ==> b == DigitRunEnd(s, i + 1)
    ensures a != i ==> a >= DigitRunEnd(s, i + 1)
    ensures a == DigitRunEnd(s, i + 1) ==> s[a] != '$'
  {
    var j := DigitRunEnd(s, i + 1);
    if a == i {
      PlaceholderEnd(s, i, b);
    }
  }

  lemma {:induction false} IndicesSkip(s: string, i: nat)
    requires i < |s| && s[i] != '%'
    ensures IndicesFrom(s, i) == IndicesFrom(s, i + 1)
  {
  }

  /** The index the counting scan records for the placeholder whose '%'
      is at `i` and '$' at `j`, if its conversion letter is accepted. */
  function FoundAt(s: string, i: nat, j: nat): set<nat>
    requires i < j <= |s|
  {
    if j + 1 < |s| && IsSpec(s[j + 1]) && AllDigits(s[i + 1..j]) && DigitsValue(s[i + 1..j]) < UsizeLimit
    then {DigitsValue(s[i + 1..j])} else {}
  }

  lemma {:induction false} IndicesAfterDollar(s: string, i: nat, j: nat)
    requires i < |s| && s[i] == '%' && j == DigitRunEnd(s, i + 1)
    requires j > i + 1 && j < |s| && s[j] == '$'
    ensures IndicesFrom(s, i) == FoundAt(s, i, j) + IndicesFrom(s, j + 1)
  {
    IndicesAfterDollarSub(s, i, j);
    AllDigitsRun(s, i + 1, j);
    if FoundAt(s, i, j) != {} {
      assert PlaceholderAt(s, i, j);
    }
    forall v | v in IndicesFrom(s, j + 1) ensures v in IndicesFrom(s, i) {
      var a, b :| j + 1 <= a < b < |s| && PlaceholderAt(s, a, b) && DigitsValue(s[a + 1..b]) < UsizeLimit
                  && v == DigitsValue(s[a + 1..b]);
    }
  }

  lemma {:induction false} IndicesAfterDollarSub(s: string, i: nat, j: nat)
    requires i < |s| && s[i] == '%' && j == DigitRunEnd(s, i + 1)
    requires j > i + 1 && j < |s| && s[j] == '$'
    ensures IndicesFrom(s, i) <= FoundAt(s, i, j) + IndicesFrom(s, j + 1)
  {
    forall v | v in IndicesFrom(s, i) ensures v in FoundAt(s, i, j) + IndicesFrom(s, j + 1) {
      var a, b :| i <= a < b < |s| && PlaceholderAt(s, a, b) && DigitsValue(s[a + 1..b]) < UsizeLimit
                  && v == DigitsValue(s[a + 1..b]);
      PlaceholderStart(s, i, a, b);
    }
  }

  lemma {:induction false} IndicesWithoutDollar(s: string, i: nat, j: nat)
    requires i < |s| && s[i] == '%' && j == DigitRunEnd(s, i + 1)
    requires !(j > i + 1 && j < |s| && s[j] == '$')
    ensures IndicesFrom(s, i) == IndicesFrom(s, j)
  {
    forall v | v in IndicesFrom(s, i) ensures v in IndicesFrom(s, j) {
      var a, b :| i <= a < b < |s| && PlaceholderAt(s, a, b) && DigitsValue(s[a + 1..b]) < UsizeLimit
                  && v == DigitsValue(s[a + 1..b]);
      PlaceholderStart(s, i, a, b);
    }
    forall v | v in IndicesFrom(s, j) ensures v in IndicesFrom(s, i) {
      var a, b :| j <= a < b < |s| && PlaceholderAt(s, a, b) && DigitsValue(s[a + 1..b]) < UsizeLimit
                  && v == DigitsValue(s[a + 1..b]);
    }
  }

  /** The counting scan from `i` collects exactly the indices of the
      placeholders that start at or after `i`. */
  lemma {:induction false} CollectFromMeaning(s: string, i: nat)
    ensures CollectFrom(s, i) == IndicesFrom(s, i)
    decreases |s| - i
  {
    if i < |s| && s[i] != '%' {
      CollectFromMeaning(s, i + 1);
      IndicesSkip(s, i);
    } else if i < |s| {
      var j := DigitRunEnd(s, i + 1);
      if j > i + 1 && j < |s| && s[j] == '$' {
        CollectFromMeaning(s, j + 1);
        IndicesAfterDollar(s, i, j);
      } else {
        CollectFromMeaning(s, j);
        IndicesWithoutDollar(s, i, j);
      }
    }
  }

  /** `count_placeholders` is the number of distinct placeholder indices. */
  lemma {:induction false} CountPlaceholdersMeaning(text: string)
    ensures CountPlaceholders(text) == |PlaceholderIndices(text)|
  {
    CollectFromMeaning(text, 0);
    assert IndicesFrom(text, 0) == PlaceholderIndices(text);
  }

  /** A template counts a placeholder exactly when it contains one whose
      index fits a `usize`; in particular no '%' means no placeholder. */
  lemma {:induction false} NoPercentNoPlaceholder(text: string)
    requires '%' !in text
    ensures !ContainsTemplatePlaceholders(text) && CountPlaceholders(text) == 0
  {
    ContainsTemplatePlaceholdersMeaning(text);
    CountPlaceholdersMeaning(text);
  }

  /** The same placeholder used twice is counted once. */
  lemma {:induction false} RepeatedPlaceholderCountedOnce()
    ensures CountPlaceholders("%1$s %1$s") == 1
  {
    var s := "%1$s %1$s";
    assert DigitRunEnd(s, 2) == 2 && DigitRunEnd(s, 7) == 7;
    assert s[1..2] == "1" && s[6..7] == "1";
    assert DigitsValue("1") == 1 by { assert "1"[..0] == []; }
    assert CollectFrom(s, 8) == {};
    assert CollectFrom(s, 5) == {1};
    assert CollectFrom(s, 3) == {1};
    assert CollectFrom(s, 0) == {1};
  }

  // ---------------------------------------------------------------------
  // build_node

  const TypeName: string := "template"
  const XmlTags: seq<string> := ["template"]

  /** The declared shape of a parameter: Text, Bool, Color and Number
      values keep their kind (Number keeps its explicit type); any other
      value is treated as a string. */
  function ConvertParam(p: Ast.TemplateParam): (r: TemplateParam)
    ensures r.name == p.name
    ensures p.value.Number? <==> r.value.NumberParam?
    ensures p.value.Number? ==> r.value.explicitType == p.value.explicitType
    ensures p.value.Bool? <==> r.value.BoolParam?
    ensures p.value.Color? <==> r.value.ColorParam?
  {
    var v := match p.value
      case Text(_) => StringParam
      case Number(_, t) => NumberParam(t)
      case Bool(_) => BoolParam
      case Color(_) => ColorParam
      case Template(_, _) => StringParam;
    TemplateParam(p.name, v)
  }

  function ConvertParams(ps: seq<Ast.TemplateParam>): (r: seq<TemplateParam>)
    ensures |r| == |ps|
    ensures forall i :: 0 <= i < |ps| ==> r[i] == ConvertParam(ps[i])
  {
    seq(|ps|, i requires 0 <= i < |ps| => ConvertParam(ps[i]))
  }

  /** `build_node`: a template value keeps its text and converted
      parameters; a text value becomes a parameterless template when the
      resource is declared as a template or its text has a placeholder;
      anything else is declined. */
  function BuildNode(parsed: Ast.ParsedResource, origin: ResourceOrigin): (r: Option<ResourceNode>)
    ensures r.Some? <==>
              parsed.value.Template?
              || (parsed.value.Text? && (parsed.kind == Ast.TemplateKind || HasPlaceholder(parsed.value.text)))
    ensures r.Some? ==> r.value.kind == TemplateKind && r.value.origin == origin
    ensures r.Some? && parsed.value.Template? ==>
              r.value.value == TemplateValue(parsed.value.template, ConvertParams(parsed.value.params))
    ensures r.Some? && parsed.value.Text? ==> r.value.value == TemplateValue(parsed.value.text, [])
  {
    match parsed.value
    case Template(text, params) =>
      Some(ResourceNode(TemplateKind, TemplateValue(text, ConvertParams(params)), origin))
    case Text(value) =>
      ContainsTemplatePlaceholdersMeaning(value);
      if parsed.kind == Ast.TemplateKind || ContainsTemplatePlaceholders(value) then
        Some(ResourceNode(TemplateKind, TemplateValue(value, []), origin))
      else None
    case _ => None
  }

  // ---------------------------------------------------------------------
  // emit_rust

  /** The Rust type of a named parameter: `&str` for strings and colours,
      `bool`, and for numbers the explicit type when it is one of the
      known names, `i64` otherwise. */
  function ParamRustType(v: TemplateParamValue): (t: string)
    ensures v.StringParam? || v.ColorParam? ==> t == "&str"
    ensures v.BoolParam? ==> t == "bool"
    ensures v.NumberParam? && v.explicitType.Some? && ParseNumberType(v.explicitType.value).Some? ==>
              t == v.explicitType.value
    ensures v.NumberParam? && v.explicitType == Some("bigdecimal") ==> t == "r_resources::BigDecimal"
    ensures v.NumberParam? && v.explicitType.None? ==> t == "i64"
    ensures v.NumberParam? && v.explicitType.Some? && v.explicitType.value != "bigdecimal" ==>
              (ParseNumberType(v.explicitType.value).None? ==> t == "i64")
  {
    match v
    case StringParam => "&str"
    case ColorParam => "&str"
    case BoolParam => "bool"
    case NumberParam(t) =>
      if t == Some("bigdecimal") then "r_resources::BigDecimal"
      else if t.Some? && ParseNumberType(t.value).Some? then t.value
      else "i64"
  }

  /** `{pad}pub fn {name}({params}) -> String {` / `format!("{fmt}", {args})` / `}`. */
  function FnItem(indent: nat, name: string, params: seq<(string, string)>, fmt: string, args: seq<string>): string {
    var pad := Spaces(indent);
    pad + ("pub fn " + name + "(" + Join(ParamDecls(params), ", ") + ") -> String {\n"
    + pad + "    format!(\"" + EscapeDebug(fmt) + "\", " + Join(args, ", ") + ")\n"
    + pad + "}\n")
  }

  /** A line indented by `indent` spaces starts with them. */
  lemma {:induction false} Indented(indent: nat, rest: string)
    requires |rest| > 0
    ensures |Spaces(indent) + rest| > indent && (Spaces(indent) + rest)[..indent] == Spaces(indent)
  {
    assert (Spaces(indent) + rest)[..indent] == Spaces(indent);
  }

  function ParamDecls(params: seq<(string, string)>): (r: seq<string>)
    ensures |r| == |params|
    ensures forall i :: 0 <= i < |params| ==> r[i] == params[i].0 + ": " + params[i].1
  {
    seq(|params|, i requires 0 <= i < |params| => params[i].0 + ": " + params[i].1)
  }

  /** The format string for named parameters: each `{name}` becomes `{}`,
      parameter by parameter in declaration order. */
  function NamedFormat(text: string, params: seq<TemplateParam>): string
    decreases |params|
  {
    if |params| == 0 then text
    else NamedFormat(Replace(text, "{" + params[0].name + "}", "{}"), params[1..])
  }

  /** The format string for positional placeholders: `%i$s` and `%i$d`
      become `{}` for i from 1 to n. */
  function PositionalFormat(text: string, n: nat): string {
    if n == 0 then text
    else
      var index := NatToString(n);
      Replace(Replace(PositionalFormat(text, n - 1), "%" + index + "$s", "{}"), "%" + index + "$d", "{}")
  }

  /** `arg1: &str`, ..., `argN: &str` and the matching argument names. */
  function PositionalParams(n: nat): (r: seq<(string, string)>)
    ensures |r| == n
    ensures forall i :: 0 <= i < n ==> r[i] == ("arg" + NatToString(i + 1), "&str")
  {
    seq(n, i requires 0 <= i < n => ("arg" + NatToString(i + 1), "&str"))
  }

  function PositionalArgs(n: nat): (r: seq<string>)
    ensures |r| == n
    ensures forall i :: 0 <= i < n ==> r[i] == "arg" + NatToString(i + 1)
  {
    seq(n, i requires 0 <= i < n => "arg" + NatToString(i + 1))
  }

  function NamedParams(params: seq<TemplateParam>): (r: seq<(string, string)>)
    ensures |r| == |params|
    ensures forall i :: 0 <= i < |params| ==> r[i] == (Sanitize(params[i].name), ParamRustType(params[i].value))
  {
    seq(|params|, i requires 0 <= i < |params| => (Sanitize(params[i].name), ParamRustType(params[i].value)))
  }

  function NamedArgs(params: seq<TemplateParam>): (r: seq<string>)
    ensures |r| == |params|
    ensures forall i :: 0 <= i < |params| ==> r[i] == Sanitize(params[i].name)
  {
    seq(|params|, i requires 0 <= i < |params| => Sanitize(params[i].name))
  }

  /** `emit_rust`: None for a non-template value. With named parameters, a
      function taking them in declaration order; without, a `&str` const
      when the text has no placeholder, else a function of `arg1..argN`. */
  function Emit(key: ResourceKey, node: ResourceNode, indent: nat): (r: Option<string>)
    ensures r.Some? <==> node.value.TemplateValue?
    ensures r.Some? ==> |r.value| > indent && r.value[..indent] == Spaces(indent)
    ensures r.Some? && |node.value.params| > 0 ==>
              r.value == FnItem(indent, Sanitize(key.name), NamedParams(node.value.params),
                                NamedFormat(node.value.template, node.value.params), NamedArgs(node.value.params))
    ensures r.Some? && |node.value.params| == 0 && CountPlaceholders(node.value.template) == 0 ==>
              DecodeConstLine(r.value) == Some(ConstDecl(indent, ConstName(key.name), "&str", StrLiteral(node.value.template)))
              && UnquoteLiteral(StrLiteral(node.value.template)) == Some(node.value.template)
    ensures r.Some? && |node.value.params| == 0 && CountPlaceholders(node.value.template) > 0 ==>
              var n := CountPlaceholders(node.value.template);
              r.value == FnItem(indent, Sanitize(key.name), PositionalParams(n),
                                PositionalFormat(node.value.template, n), PositionalArgs(n))
  {
    match node.value
    case TemplateValue(text, params) =>
      var name := Sanitize(key.name);
      var n := CountPlaceholders(text);
      if |params| > 0 then
        Indented(indent, FnItem(indent, name, NamedParams(params), NamedFormat(text, params), NamedArgs(params))[indent..]);
        Some(FnItem(indent, name, NamedParams(params), NamedFormat(text, params), NamedArgs(params)))
      else if n == 0 then
        StrConstRoundTrip(indent, ConstName(key.name), text);
        Indented(indent, ConstLine(indent, ConstName(key.name), "&str", StrLiteral(text))[indent..]);
        Some(ConstLine(indent, ConstName(key.name), "&str", StrLiteral(text)))
      else
        Indented(indent, FnItem(indent, name, PositionalParams(n), PositionalFormat(text, n), PositionalArgs(n))[indent..]);
        Some(FnItem(indent, name, PositionalParams(n), PositionalFormat(text, n), PositionalArgs(n)))
    case _ => None
  }

  /** Text without '%' is its own positional format string. */
  lemma {:induction false} PositionalFormatPlain(text: string, n: nat)
    requires '%' !in text
    ensures PositionalFormat(text, n) == text
  {
    if n > 0 {
      PositionalFormatPlain(text, n - 1);
      var index := NatToString(n);
      NoOccurrence(text, "%" + index + "$s");
      NoOccurrence(text, "%" + index + "$d");
      ReplaceAbsent(text, "%" + index + "$s", "{}");
      ReplaceAbsent(text, "%" + index + "$d", "{}");
    }
  }

  /** Text without '{' is its own named format string. */
  lemma {:induction false} NamedFormatPlain(text: string, params: seq<TemplateParam>)
    requires '{' !in text
    ensures NamedFormat(text, params) == text
    decreases |params|
  {
    if |params| > 0 {
      var pat := "{" + params[0].name + "}";
      NoOccurrence(text, pat);
      ReplaceAbsent(text, pat, "{}");
      NamedFormatPlain(text, params[1..]);
    }
  }

  /** A pattern whose first character is absent from the text occurs
      nowhere in it. */
  lemma {:induction false} NoOccurrence(text: string, pat: string)
    requires |pat| > 0 && pat[0] !in text
    ensures forall i: nat :: !OccursAt(text, pat, i)
  {
    forall i: nat ensures !OccursAt(text, pat, i) {
      if i + |pat| <= |text| {
        assert text[i..i + |pat|][0] == text[i];
      }
    }
  }
}
