/** Template strings of the legacy pipeline: how a `<string template="…">`
    element collects its `<param>` children (codegen/parser/templates.rs),
    and how a template becomes a Rust function whose body formats the
    arguments into the text (codegen/generator/basic.rs).

    `Meaning` says what the generated function should return: the template
    with every `{name}` of a declared parameter replaced by the argument's
    text, and every other brace kept as written. `EvalBody` says what a
    generated body does return: it reads the string literal the way Rust
    does, then applies the `format!` rules for `{}`, `{{` and `}}`. */
module LegacyTemplates {
  import opened Wrappers
  import opened Text
  import opened Identifiers
  import opened LegacyTypes

  // ---------------------------------------------------------------------
  // Collecting a template while parsing

  /** `TemplateState`: the template text once seen, and the parameters in
      the order their tags appear. */
  datatype TemplateState = TemplateState(templateString: Option<string>, parameters: seq<TemplateParameter>)

  /** `TemplateState::new`, and the state `reset` returns to. */
  const NewState := TemplateState(None, [])

  /** `handle_template_attribute`. */
  function SetTemplate(st: TemplateState, value: string): TemplateState {
    st.(templateString := Some(value))
  }

  /** The type named by a `type` attribute, compared without regard to
      case; an unknown name means a string. */
  function ParamTypeOf(typeStr: string): ParamType {
    var t := ToLower(typeStr);
    if t == "string" then StringParam
    else if t == "int" then IntParam
    else if t == "float" then FloatParam
    else if t == "bool" then BoolParam
    else StringParam
  }

  function ParamTypeName(p: ParamType): string {
    match p
    case StringParam => "string"
    case IntParam => "int"
    case FloatParam => "float"
    case BoolParam => "bool"
  }

  /** Each type's own name, in any case, selects it; every other name is a
      string. */
  lemma {:induction false} ParamTypeOfName(p: ParamType, typeStr: string)
    ensures ParamTypeOf(ParamTypeName(p)) == p
    ensures ToLower(typeStr) == ParamTypeName(p) ==> ParamTypeOf(typeStr) == p
    ensures ToLower(typeStr) !in ["int", "float", "bool"] ==> ParamTypeOf(typeStr) == StringParam
  {
    var n := ParamTypeName(p);
    assert ToLower(n) == n;
  }

  /** `handle_param_tag`: the parameter is appended. */
  function AddParam(st: TemplateState, name: string, typeStr: string): (r: TemplateState)
    ensures r.templateString == st.templateString
    ensures |r.parameters| == |st.parameters| + 1
    ensures r.parameters[..|st.parameters|] == st.parameters
    ensures r.parameters[|st.parameters|] == TemplateParameter(name, ParamTypeOf(typeStr))
  {
    st.(parameters := st.parameters + [TemplateParameter(name, ParamTypeOf(typeStr))])
  }

  /** `finalize_template`: a template exactly when its text is present and
      not empty, with the parameters collected so far. */
  function FinalizeTemplate(st: TemplateState): (r: Option<Value>)
    ensures r.Some? <==> st.templateString.Some? && st.templateString.value != ""
    ensures r.Some? ==> r.value == TemplateValue(Template(st.templateString.value, st.parameters))
  {
    match st.templateString
    case Some(t) => if t != "" then Some(TemplateValue(Template(t, st.parameters))) else None
    case None => None
  }

  /** After a reset nothing is left to finalize. */
  lemma {:induction false} FinalizeAfterReset()
    ensures FinalizeTemplate(NewState).None?
  {
  }

  // ---------------------------------------------------------------------
  // What a template means

  /** The first parameter called `name`. */
  function FindParam(params: seq<TemplateParameter>, name: string): (r: Option<TemplateParameter>)
    ensures r.None? <==> forall i :: 0 <= i < |params| ==> params[i].name != name
    ensures r.Some? ==> r.value in params && r.value.name == name
    decreases |params|
  {
    if |params| == 0 then None
    else if params[0].name == name then Some(params[0])
    else FindParam(params[1..], name)
  }

  /** The text the generated function returns, given the text `display`
      shows for each argument (named by its sanitized parameter name). A
      `{` with no `}` after it, and a `{name}` naming no parameter, are
      kept as they are. */
  function Meaning(t: string, params: seq<TemplateParameter>, display: string -> string): string
    decreases |t|
  {
    match IndexOf(t, '{')
    case None => t
    case Some(start) =>
      var after := t[start + 1..];
      match IndexOf(after, '}')
      case None => t[..start] + "{" + Meaning(after, params, display)
      case Some(end) =>
        var name := after[..end];
        var value := if FindParam(params, name).Some? then display(Sanitize(name)) else "{" + name + "}";
        t[..start] + value + Meaning(after[end + 1..], params, display)
  }

  // ---------------------------------------------------------------------
  // What a generated body does

  /** A generated function body: `format!("<literal>", args…)`, or
      `"<literal>".to_string()`. The literal is the text between the
      quotes, as written into the source. */
  datatype Body = FormatCall(literal: string, args: seq<string>) | StringCall(literal: string)

  /** Prefixes a text to a result that may be missing. */
  function Prepend(x: string, o: Option<string>): Option<string> {
    match o
    case None => None
    case Some(s) => Some(x + s)
  }

  /** The `format!` rules the generator relies on: `{{` and `}}` stand for
      one brace, `{}` for the next argument, and every argument must be
      used. Any other brace is rejected. */
  function FormatApply(f: string, args: seq<string>, display: string -> string): Option<string>
    decreases |f|
  {
    if |f| == 0 then (if |args| == 0 then Some("") else None)
    else if f[0] == '{' then
      if |f| >= 2 && f[1] == '{' then Prepend("{", FormatApply(f[2..], args, display))
      else if |f| >= 2 && f[1] == '}' && |args| > 0 then Prepend(display(args[0]), FormatApply(f[2..], args[1..], display))
      else None
    else if f[0] == '}' then
      if |f| >= 2 && f[1] == '}' then Prepend("}", FormatApply(f[2..], args, display))
      else None
    else Prepend([f[0]], FormatApply(f[1..], args, display))
  }

  /** What a body returns; `None` when it does not compile. */
  function EvalBody(b: Body, display: string -> string): Option<string> {
    match b
    case FormatCall(lit, args) =>
      (match UnescapeDebug(lit)
       case None => None
       case Some(f) => FormatApply(f, args, display))
    case StringCall(lit) => UnescapeDebug(lit)
  }

  // ---------------------------------------------------------------------
  // The body as the source writes it

  /** `parse_template_placeholders`: text is escaped for the literal, a
      declared placeholder becomes `{}` with the sanitized name as
      argument, an unknown one becomes `\{name\}`, and a `{` with no `}`
      after it becomes `\{`. Empty text contributes nothing either way, as
      escaping the empty text gives the empty text. */
  function ParsePlaceholders(t: string, params: seq<TemplateParameter>): (r: (string, seq<string>))
    decreases |t|
  {
    match IndexOf(t, '{')
    case None => (EscapeDebug(t), [])
    case Some(start) =>
      var text := EscapeDebug(t[..start]);
      var after := t[start + 1..];
      match IndexOf(after, '}')
      case None =>
        var rest := ParsePlaceholders(after, params);
        (text + "\\{" + rest.0, rest.1)
      case Some(end) =>
        var name := after[..end];
        var rest := ParsePlaceholders(after[end + 1..], params);
        match FindParam(params, name)
        case Some(p) => (text + "{}" + rest.0, [Sanitize(p.name)] + rest.1)
        case None => (text + "\\{" + name + "\\}" + rest.0, rest.1)
  }

  /** The body of `emit_template_function`: `format!` when there are
      arguments, otherwise the literal with every backslash removed. */
  function TemplateBodyAsWritten(t: string, params: seq<TemplateParameter>): Body {
    var (f, args) := ParsePlaceholders(t, params);
    if |args| > 0 then FormatCall(f, args) else StringCall(Replace(f, "\\", ""))
  }

  /** Where the scan finds a `{name}` after text with no brace. */
  lemma {:induction false} BraceSplit(t: string, pre: string, name: string, tail: string)
    requires t == pre + "{" + name + "}" + tail && '{' !in pre && '}' !in name
    ensures IndexOf(t, '{') == Some(|pre|) && t[..|pre|] == pre
    ensures IndexOf(t[|pre| + 1..], '}') == Some(|name|)
    ensures t[|pre| + 1..][..|name|] == name && t[|pre| + 1..][|name| + 1..] == tail
  {
    var after := name + "}" + tail;
    assert t == pre + ['{'] + after;
    IndexOfAfter(pre, '{', after);
    assert t[|pre| + 1..] == after;
    assert after == name + ['}'] + tail;
    IndexOfAfter(name, '}', tail);
  }

  /** One step of `ParsePlaceholders` at a `{name}`. */
  lemma {:induction false} ParseStep(t: string, pre: string, name: string, tail: string, params: seq<TemplateParameter>)
    requires t == pre + "{" + name + "}" + tail && '{' !in pre && '}' !in name
    ensures var rest := ParsePlaceholders(tail, params);
            ParsePlaceholders(t, params) ==
              if FindParam(params, name).Some? then (EscapeDebug(pre) + "{}" + rest.0, [Sanitize(name)] + rest.1)
              else (EscapeDebug(pre) + "\\{" + name + "\\}" + rest.0, rest.1)
  {
    BraceSplit(t, pre, name, tail);
  }

  /** One step of `Meaning` at a `{name}`. */
  lemma {:induction false} MeaningStep(t: string, pre: string, name: string, tail: string, params: seq<TemplateParameter>, display: string -> string)
    requires t == pre + "{" + name + "}" + tail && '{' !in pre && '}' !in name
    ensures Meaning(t, params, display) ==
              pre + (if FindParam(params, name).Some? then display(Sanitize(name)) else "{" + name + "}") + Meaning(tail, params, display)
  {
    BraceSplit(t, pre, name, tail);
  }

  /** A template whose text holds a declared placeholder and then an
      unknown one gets the literal `\\{`, which is no Rust escape: the
      function does not compile, although the template means something. */
  lemma {:induction false} UnknownPlaceholderBreaks(name: string, mid: string, x: string, params: seq<TemplateParameter>, display: string -> string)
    requires FindParam(params, name).Some? && FindParam(params, x).None?
    requires '}' !in name && '}' !in x && '{' !in mid
    requires forall i :: 0 <= i < |mid| ==> |EscapeDebugChar(mid[i])| == 1
    ensures EvalBody(TemplateBodyAsWritten("{" + name + "}" + mid + "{" + x + "}", params), display).None?
    ensures Meaning("{" + name + "}" + mid + "{" + x + "}", params, display) == display(Sanitize(name)) + mid + "{" + x + "}"
  {
    var t := "{" + name + "}" + mid + "{" + x + "}";
    NoBackslashAfterBraces("{}" + mid, mid);
    UnknownEscape("{}" + mid, '{', x + "\\}");
    UnknownPlaceholderFormat(t, name, mid, x, params);
    UnknownPlaceholderMeaning(t, name, mid, x, params, display);
  }

  lemma {:induction false} UnknownPlaceholderFormat(t: string, name: string, mid: string, x: string, params: seq<TemplateParameter>)
    requires t == "{" + name + "}" + mid + "{" + x + "}"
    requires FindParam(params, name).Some? && FindParam(params, x).None?
    requires '}' !in name && '}' !in x && '{' !in mid
    requires forall i :: 0 <= i < |mid| ==> |EscapeDebugChar(mid[i])| == 1
    ensures ParsePlaceholders(t, params) == (("{}" + mid) + ['\\', '{'] + (x + "\\}"), [Sanitize(name)])
  {
    var tail := mid + "{" + x + "}";
    TwoBraces(t, name, mid, x);
    ParseStep(t, [], name, tail, params);
    var rest := ParsePlaceholders(tail, params);
    assert EscapeDebug([]) == [];
    assert ParsePlaceholders(t, params) == ([] + "{}" + rest.0, [Sanitize(name)] + rest.1);
    ParseStep(tail, mid, x, [], params);
    assert ParsePlaceholders([], params) == ([], []);
    EscapeDebugIdentity(mid);
    assert rest == (mid + "\\{" + x + "\\}" + [], []);
    assert [Sanitize(name)] + [] == [Sanitize(name)];
    UnknownShape(mid, x);
  }

  lemma {:induction false} NoBackslashAfterBraces(p: string, mid: string)
    requires p == "{}" + mid
    requires forall i :: 0 <= i < |mid| ==> |EscapeDebugChar(mid[i])| == 1
    ensures forall i :: 0 <= i < |p| ==> p[i] != '\\'
  {
    forall i | 0 <= i < |p| ensures p[i] != '\\' {
      if i >= 2 {
        assert p[i] == mid[i - 2];
        EscapeDebugCharRoundTrip(mid[i - 2]);
      }
    }
  }

  lemma {:induction false} UnknownShape(mid: string, x: string)
    ensures [] + "{}" + (mid + "\\{" + x + "\\}" + []) == ("{}" + mid) + ['\\', '{'] + (x + "\\}")
  {
  }

  lemma {:induction false} UnknownPlaceholderMeaning(t: string, name: string, mid: string, x: string, params: seq<TemplateParameter>, display: string -> string)
    requires t == "{" + name + "}" + mid + "{" + x + "}"
    requires FindParam(params, name).Some? && FindParam(params, x).None?
    requires '}' !in name && '}' !in x && '{' !in mid
    ensures Meaning(t, params, display) == display(Sanitize(name)) + mid + "{" + x + "}"
  {
    var tail := mid + "{" + x + "}";
    var v := display(Sanitize(name));
    var b := "{" + x + "}";
    TwoBraces(t, name, mid, x);
    MeaningStep(t, [], name, tail, params, display);
    assert Meaning(t, params, display) == [] + v + Meaning(tail, params, display);
    MeaningStep(tail, mid, x, [], params, display);
    assert Meaning(tail, params, display) == mid + b + Meaning([], params, display);
    assert Meaning([], params, display) == [];
    Regroup(v, mid, x);
  }

  /** The two splits of `{name}mid{x}` the scan makes. */
  lemma {:induction false} TwoBraces(t: string, name: string, mid: string, x: string)
    requires t == "{" + name + "}" + mid + "{" + x + "}"
    ensures t == [] + "{" + name + "}" + (mid + "{" + x + "}")
    ensures mid + "{" + x + "}" == mid + "{" + x + "}" + []
  {
  }

  lemma {:induction false} Regroup(v: string, mid: string, x: string)
    ensures [] + v + (mid + ("{" + x + "}") + []) == v + mid + "{" + x + "}"
  {
  }

  /** Every `{` of the text opens a declared placeholder closed by a `}`,
      and no `}` stands outside one. */
  predicate AllDeclared(t: string, params: seq<TemplateParameter>)
    decreases |t|
  {
    match IndexOf(t, '{')
    case None => '}' !in t
    case Some(start) =>
      var after := t[start + 1..];
      '}' !in t[..start]
      && match IndexOf(after, '}')
         case None => false
         case Some(end) => FindParam(params, after[..end]).Some? && AllDeclared(after[end + 1..], params)
  }

  /** Text with no brace is the same doubled. */
  lemma {:induction false} DoubleBraceFree(x: string)
    requires '{' !in x && '}' !in x
    ensures Double(x) == x
    decreases |x|
  {
    if |x| > 0 {
      assert x[0] != '{' && x[0] != '}';
      DoubleBraceFree(x[1..]);
      assert [x[0]] + x[1..] == x;
    }
  }

  /** Escaped text reads back as itself in front of whatever follows. */
  lemma {:induction false} UnescapeAfterEscape(x: string, rest: string)
    ensures UnescapeDebug(EscapeDebug(x) + rest) == Prepend(x, UnescapeDebug(rest))
    decreases |x|
  {
    if |x| == 0 {
      assert EscapeDebug(x) + rest == rest;
      if UnescapeDebug(rest).Some? {
        assert x + UnescapeDebug(rest).value == UnescapeDebug(rest).value;
      }
    } else {
      var c := x[0];
      var e := EscapeDebugChar(c);
      var tail := EscapeDebug(x[1..]) + rest;
      assert EscapeDebug(x) + rest == e + tail;
      UnescapeAfterEscape(x[1..], rest);
      EscapeDebugCharRoundTrip(c);
      if |e| == 1 {
        assert (e + tail)[0] == c && (e + tail)[1..] == tail;
      } else {
        assert (e + tail)[0] == '\\' && (e + tail)[1] == e[1] && (e + tail)[2..] == tail;
      }
      assert UnescapeDebug(e + tail) == Prepend([c], Prepend(x[1..], UnescapeDebug(rest)));
      PrependPrepend([c], x[1..], UnescapeDebug(rest));
      assert [c] + x[1..] == x;
    }
  }

  /** `{}` reads back as itself. */
  lemma {:induction false} UnescapeEmptyBraces(rest: string)
    ensures UnescapeDebug("{}" + rest) == Prepend("{}", UnescapeDebug(rest))
  {
    var s := "{}" + rest;
    assert s[0] == '{' && s[1..] == "}" + rest;
    assert ("}" + rest)[0] == '}' && ("}" + rest)[1..] == rest;
    if UnescapeDebug(rest).Some? {
      assert ['{'] + (['}'] + UnescapeDebug(rest).value) == "{}" + UnescapeDebug(rest).value;
    }
  }

  /** As the source writes the body, a template whose braces are all
      declared placeholders returns what it means: the literal reads back
      as text around `{}`s, one per placeholder, and the arguments fill
      them in order. */
  lemma {:induction false} AsWrittenFormatMeaning(t: string, params: seq<TemplateParameter>, display: string -> string)
    requires AllDeclared(t, params)
    ensures var (f, args) := ParsePlaceholders(t, params);
            UnescapeDebug(f).Some? && FormatApply(UnescapeDebug(f).value, args, display) == Some(Meaning(t, params, display))
            && ('{' in t ==> |args| > 0)
    decreases |t|
  {
    if '{' !in t {
      PlainFormatMeaning(t, params, display);
    } else {
      var start := IndexOf(t, '{').value;
      var after := t[start + 1..];
      var end := IndexOf(after, '}').value;
      var tail := after[end + 1..];
      DeclaredTail(t, start, end, params);
      AsWrittenFormatMeaning(tail, params, display);
      DeclaredStep(t, start, end, params, display);
    }
  }

  /** Past its first placeholder, a template whose braces are all declared
      placeholders is still one. */
  lemma {:induction false} DeclaredTail(t: string, start: nat, end: nat, params: seq<TemplateParameter>)
    requires AllDeclared(t, params)
    requires IndexOf(t, '{') == Some(start) && IndexOf(t[start + 1..], '}') == Some(end)
    ensures '}' !in t[..start] && FindParam(params, t[start + 1..][..end]).Some?
    ensures AllDeclared(t[start + 1..][end + 1..], params)
  {
  }

  /** The step of `AsWrittenFormatMeaning` for text without a placeholder. */
  lemma {:induction false} PlainFormatMeaning(t: string, params: seq<TemplateParameter>, display: string -> string)
    requires '{' !in t && '}' !in t
    ensures var (f, args) := ParsePlaceholders(t, params);
            UnescapeDebug(f) == Some(t) && args == [] && FormatApply(t, args, display) == Some(Meaning(t, params, display))
  {
    EscapeDebugRoundTrip(t);
    DoubleBraceFree(t);
    DoubleApply(t, [], [], display);
    assert t + [] == t;
  }

  /** The step of `AsWrittenFormatMeaning` at a declared `{name}`. */
  lemma {:induction false} DeclaredStep(t: string, start: nat, end: nat, params: seq<TemplateParameter>, display: string -> string)
    requires IndexOf(t, '{') == Some(start) && IndexOf(t[start + 1..], '}') == Some(end)
    requires '}' !in t[..start] && FindParam(params, t[start + 1..][..end]).Some?
    requires var tail := t[start + 1..][end + 1..];
             var (g, rargs) := ParsePlaceholders(tail, params);
             UnescapeDebug(g).Some? && FormatApply(UnescapeDebug(g).value, rargs, display) == Some(Meaning(tail, params, display))
    ensures var (f, args) := ParsePlaceholders(t, params);
            UnescapeDebug(f).Some? && FormatApply(UnescapeDebug(f).value, args, display) == Some(Meaning(t, params, display))
            && |args| > 0
  {
    var pre := t[..start];
    var after := t[start + 1..];
    var name := after[..end];
    var tail := after[end + 1..];
    var (g, rargs) := ParsePlaceholders(tail, params);
    var u := UnescapeDebug(g).value;
    var a := Sanitize(FindParam(params, name).value.name);
    DeclaredUnfold(t, start, end, params, display);
    DeclaredJoin(pre, g, u, a, rargs, Meaning(tail, params, display), display);
  }

  /** `{name}` for a declared `name` compiles to `{}` with the sanitized
      name as argument, and means the name shown. */
  lemma {:induction false} DeclaredUnfold(t: string, start: nat, end: nat, params: seq<TemplateParameter>, display: string -> string)
    requires IndexOf(t, '{') == Some(start) && IndexOf(t[start + 1..], '}') == Some(end)
    requires FindParam(params, t[start + 1..][..end]).Some?
    ensures var pre := t[..start];
            var tail := t[start + 1..][end + 1..];
            var a := Sanitize(FindParam(params, t[start + 1..][..end]).value.name);
            var (g, rargs) := ParsePlaceholders(tail, params);
            ParsePlaceholders(t, params) == (EscapeDebug(pre) + "{}" + g, [a] + rargs)
            && Meaning(t, params, display) == pre + display(a) + Meaning(tail, params, display)
            && '{' !in pre
  {
    DeclaredParse(t, start, end, params);
    DeclaredMeaning(t, start, end, params, display);
  }

  lemma {:induction false} DeclaredParse(t: string, start: nat, end: nat, params: seq<TemplateParameter>)
    requires IndexOf(t, '{') == Some(start) && IndexOf(t[start + 1..], '}') == Some(end)
    requires FindParam(params, t[start + 1..][..end]).Some?
    ensures var g := ParsePlaceholders(t[start + 1..][end + 1..], params);
            var a := Sanitize(FindParam(params, t[start + 1..][..end]).value.name);
            ParsePlaceholders(t, params) == (EscapeDebug(t[..start]) + "{}" + g.0, [a] + g.1)
  {
  }

  lemma {:induction false} DeclaredMeaning(t: string, start: nat, end: nat, params: seq<TemplateParameter>, display: string -> string)
    requires IndexOf(t, '{') == Some(start) && IndexOf(t[start + 1..], '}') == Some(end)
    requires FindParam(params, t[start + 1..][..end]).Some?
    ensures var a := Sanitize(FindParam(params, t[start + 1..][..end]).value.name);
            Meaning(t, params, display) == t[..start] + display(a) + Meaning(t[start + 1..][end + 1..], params, display)
  {
  }

  /** Text free of braces, then `{}`, then a format string that reads back
      and fills in: the whole reads back and fills in with one more
      argument in front. */
  lemma {:induction false} DeclaredJoin(pre: string, g: string, u: string, a: string, rargs: seq<string>, m: string, display: string -> string)
    requires '{' !in pre && '}' !in pre
    requires UnescapeDebug(g) == Some(u) && FormatApply(u, rargs, display) == Some(m)
    ensures UnescapeDebug(EscapeDebug(pre) + "{}" + g) == Some(pre + ("{}" + u))
    ensures FormatApply(pre + ("{}" + u), [a] + rargs, display) == Some(pre + display(a) + m)
  {
    assert EscapeDebug(pre) + "{}" + g == EscapeDebug(pre) + ("{}" + g);
    UnescapeAfterEscape(pre, "{}" + g);
    UnescapeEmptyBraces(g);
    DoubleBraceFree(pre);
    DeclaredCase(pre, a, m, u, rargs, display);
  }

  /** A template whose braces are all declared placeholders, and which has
      at least one, compiles as the source writes it and returns what it
      means. */
  lemma {:induction false} DeclaredPlaceholdersWork(t: string, params: seq<TemplateParameter>, display: string -> string)
    requires AllDeclared(t, params) && '{' in t
    ensures TemplateBodyAsWritten(t, params).FormatCall?
    ensures EvalBody(TemplateBodyAsWritten(t, params), display) == Some(Meaning(t, params, display))
  {
    AsWrittenFormatMeaning(t, params, display);
  }

  // ---------------------------------------------------------------------
  // The body as it should be written

  /** A brace doubled, so that `format!` reads it as itself. */
  function DoubleChar(c: char): string {
    if c == '{' then "{{" else if c == '}' then "}}" else [c]
  }

  function Double(s: string): string {
    if |s| == 0 then [] else DoubleChar(s[0]) + Double(s[1..])
  }

  /** The format string before it is escaped for the literal: text with
      its braces doubled, `{}` with the sanitized name as argument for a
      declared placeholder, and the braces of anything else doubled. */
  function CorrectFormat(t: string, params: seq<TemplateParameter>): (r: (string, seq<string>))
    decreases |t|
  {
    match IndexOf(t, '{')
    case None => (Double(t), [])
    case Some(start) =>
      var pre := Double(t[..start]);
      var after := t[start + 1..];
      match IndexOf(after, '}')
      case None =>
        var rest := CorrectFormat(after, params);
        (pre + ("{{" + rest.0), rest.1)
      case Some(end) =>
        var name := after[..end];
        var rest := CorrectFormat(after[end + 1..], params);
        match FindParam(params, name)
        case Some(p) => (pre + ("{}" + rest.0), [Sanitize(p.name)] + rest.1)
        case None => (pre + ("{{" + (Double(name) + ("}}" + rest.0))), rest.1)
  }

  /** The corrected body: the format string escaped as a whole, and
      without arguments the template text itself, escaped. */
  function TemplateBody(t: string, params: seq<TemplateParameter>): Body {
    var (f, args) := CorrectFormat(t, params);
    if |args| > 0 then FormatCall(EscapeDebug(f), args) else StringCall(EscapeDebug(t))
  }

  lemma {:induction false} PrependPrepend(a: string, b: string, o: Option<string>)
    ensures Prepend(a, Prepend(b, o)) == Prepend(a + b, o)
  {
    if o.Some? {
      assert a + (b + o.value) == a + b + o.value;
    }
  }

  /** Doubled text reads back as the text. */
  lemma {:induction false} DoubleApply(x: string, rest: string, args: seq<string>, display: string -> string)
    ensures FormatApply(Double(x) + rest, args, display) == Prepend(x, FormatApply(rest, args, display))
    decreases |x|
  {
    if |x| == 0 {
      assert Double(x) + rest == rest;
      var o := FormatApply(rest, args, display);
      if o.Some? {
        assert [] + o.value == o.value;
      }
    } else {
      var c := x[0];
      var d := DoubleChar(c);
      var tail := Double(x[1..]) + rest;
      assert Double(x) + rest == d + tail;
      DoubleApply(x[1..], rest, args, display);
      if c == '{' || c == '}' {
        assert (d + tail)[0] == c && (d + tail)[1] == c && (d + tail)[2..] == tail;
      } else {
        assert (d + tail)[0] == c && (d + tail)[1..] == tail;
      }
      assert FormatApply(d + tail, args, display) == Prepend([c], Prepend(x[1..], FormatApply(rest, args, display)));
      PrependPrepend([c], x[1..], FormatApply(rest, args, display));
      assert [c] + x[1..] == x;
    }
  }

  lemma {:induction false} ApplyPair(a: char, b: char, rest: string, args: seq<string>, display: string -> string)
    ensures a == '{' && b == '{' ==> FormatApply([a, b] + rest, args, display) == Prepend("{", FormatApply(rest, args, display))
    ensures a == '}' && b == '}' ==> FormatApply([a, b] + rest, args, display) == Prepend("}", FormatApply(rest, args, display))
    ensures a == '{' && b == '}' && |args| > 0 ==>
              FormatApply([a, b] + rest, args, display) == Prepend(display(args[0]), FormatApply(rest, args[1..], display))
  {
    var f := [a, b] + rest;
    assert f[0] == a && f[1] == b && f[2..] == rest;
  }

  lemma {:induction false} UnclosedCase(pre: string, m: string, f: string, args: seq<string>, display: string -> string)
    requires FormatApply(f, args, display) == Some(m)
    ensures FormatApply(Double(pre) + ("{{" + f), args, display) == Some(pre + "{" + m)
  {
    DoubleApply(pre, "{{" + f, args, display);
    assert "{{" + f == ['{', '{'] + f;
    ApplyPair('{', '{', f, args, display);
    assert pre + ("{" + m) == pre + "{" + m;
  }

  lemma {:induction false} DeclaredCase(pre: string, a: string, m: string, f: string, args: seq<string>, display: string -> string)
    requires FormatApply(f, args, display) == Some(m)
    ensures FormatApply(Double(pre) + ("{}" + f), [a] + args, display) == Some(pre + display(a) + m)
  {
    DoubleApply(pre, "{}" + f, [a] + args, display);
    assert "{}" + f == ['{', '}'] + f;
    ApplyPair('{', '}', f, [a] + args, display);
    assert ([a] + args)[0] == a && ([a] + args)[1..] == args;
    assert pre + (display(a) + m) == pre + display(a) + m;
  }

  lemma {:induction false} UnknownCase(pre: string, name: string, m: string, f: string, args: seq<string>, display: string -> string)
    requires FormatApply(f, args, display) == Some(m)
    ensures FormatApply(Double(pre) + ("{{" + (Double(name) + ("}}" + f))), args, display) == Some(pre + ("{" + name + "}") + m)
  {
    var g := Double(name) + ("}}" + f);
    ClosingName(name, m, f, args, display);
    UnclosedCase(pre, name + ("}" + m), g, args, display);
    BraceAround(pre, name, m);
  }

  lemma {:induction false} BraceAround(pre: string, name: string, m: string)
    ensures pre + "{" + (name + ("}" + m)) == pre + ("{" + name + "}") + m
  {
  }

  /** A doubled name and a doubled `}` read as the name and one `}`. */
  lemma {:induction false} ClosingName(name: string, m: string, f: string, args: seq<string>, display: string -> string)
    requires FormatApply(f, args, display) == Some(m)
    ensures FormatApply(Double(name) + ("}}" + f), args, display) == Some(name + ("}" + m))
  {
    assert "}}" + f == ['}', '}'] + f;
    ApplyPair('}', '}', f, args, display);
    DoubleApply(name, "}}" + f, args, display);
  }

  lemma {:induction false} CorrectFormatMeaning(t: string, params: seq<TemplateParameter>, display: string -> string)
    ensures FormatApply(CorrectFormat(t, params).0, CorrectFormat(t, params).1, display) == Some(Meaning(t, params, display))
    decreases |t|
  {
    match IndexOf(t, '{')
    case None =>
      DoubleApply(t, [], [], display);
      assert Double(t) + [] == Double(t);
      assert t + "" == t;
    case Some(start) =>
      var after := t[start + 1..];
      match IndexOf(after, '}')
      case None =>
        CorrectFormatMeaning(after, params, display);
        UnclosedStep(t, start, params, display);
      case Some(end) =>
        CorrectFormatMeaning(after[end + 1..], params, display);
        ClosedStep(t, start, end, params, display);
  }

  /** The step of `CorrectFormatMeaning` at a `{` with no `}` after it. */
  lemma {:induction false} UnclosedStep(t: string, start: nat, params: seq<TemplateParameter>, display: string -> string)
    requires IndexOf(t, '{') == Some(start) && IndexOf(t[start + 1..], '}').None?
    requires var after := t[start + 1..];
             FormatApply(CorrectFormat(after, params).0, CorrectFormat(after, params).1, display) == Some(Meaning(after, params, display))
    ensures FormatApply(CorrectFormat(t, params).0, CorrectFormat(t, params).1, display) == Some(Meaning(t, params, display))
  {
    var after := t[start + 1..];
    var rest := CorrectFormat(after, params);
    UnclosedCase(t[..start], Meaning(after, params, display), rest.0, rest.1, display);
  }

  /** The step of `CorrectFormatMeaning` at a `{name}`. */
  lemma {:induction false} ClosedStep(t: string, start: nat, end: nat, params: seq<TemplateParameter>, display: string -> string)
    requires IndexOf(t, '{') == Some(start) && IndexOf(t[start + 1..], '}') == Some(end)
    requires var tail := t[start + 1..][end + 1..];
             FormatApply(CorrectFormat(tail, params).0, CorrectFormat(tail, params).1, display) == Some(Meaning(tail, params, display))
    ensures FormatApply(CorrectFormat(t, params).0, CorrectFormat(t, params).1, display) == Some(Meaning(t, params, display))
  {
    var after := t[start + 1..];
    var name := after[..end];
    var tail := after[end + 1..];
    var rest := CorrectFormat(tail, params);
    match FindParam(params, name)
    case Some(p) =>
      DeclaredCase(t[..start], Sanitize(p.name), Meaning(tail, params, display), rest.0, rest.1, display);
    case None =>
      UnknownCase(t[..start], name, Meaning(tail, params, display), rest.0, rest.1, display);
  }

  /** A template with no declared placeholder means its own text. */
  lemma {:induction false} NoArgsMeaning(t: string, params: seq<TemplateParameter>, display: string -> string)
    ensures CorrectFormat(t, params).1 == [] ==> Meaning(t, params, display) == t
    decreases |t|
  {
    match IndexOf(t, '{')
    case None =>
    case Some(start) =>
      var after := t[start + 1..];
      match IndexOf(after, '}')
      case None =>
        NoArgsMeaning(after, params, display);
        RejoinUnclosed(t, start);
      case Some(end) =>
        NoArgsMeaning(after[end + 1..], params, display);
        RejoinClosed(t, start, end);
  }

  lemma {:induction false} RejoinUnclosed(t: string, start: nat)
    requires start < |t| && t[start] == '{'
    ensures t[..start] + "{" + t[start + 1..] == t
  {
  }

  lemma {:induction false} RejoinClosed(t: string, start: nat, end: nat)
    requires start < |t| && t[start] == '{'
    requires end < |t[start + 1..]| && t[start + 1..][end] == '}'
    ensures t[..start] + ("{" + t[start + 1..][..end] + "}") + t[start + 1..][end + 1..] == t
  {
    var after := t[start + 1..];
    assert after == after[..end] + "}" + after[end + 1..];
    assert t == t[..start] + "{" + after;
  }

  /** The corrected body returns what the template means, for every
      template and every parameter list. */
  lemma {:induction false} TemplateBodyMeaning(t: string, params: seq<TemplateParameter>, display: string -> string)
    ensures EvalBody(TemplateBody(t, params), display) == Some(Meaning(t, params, display))
  {
    var (f, args) := CorrectFormat(t, params);
    if |args| > 0 {
      EscapeDebugRoundTrip(f);
      CorrectFormatMeaning(t, params, display);
    } else {
      EscapeDebugRoundTrip(t);
      NoArgsMeaning(t, params, display);
    }
  }

  /** Without arguments the source removes every backslash from the
      escaped text, so a quote in the template is left bare and ends the
      literal: the template `"hi"` gives `""hi"".to_string()`, which does
      not compile. */
  lemma {:induction false} QuoteBreaksNoArgs(t: string, params: seq<TemplateParameter>, display: string -> string)
    requires t == "\"hi\""
    ensures EvalBody(TemplateBodyAsWritten(t, params), display).None?
    ensures Meaning(t, params, display) == t
    ensures EvalBody(TemplateBody(t, params), display) == Some(t)
  {
    assert IndexOf(t, '{').None?;
    assert EscapeDebug("\"hi\"") == "\\\"hi\\\"";
    assert ParsePlaceholders(t, params) == ("\\\"hi\\\"", []);
    StripQuoteEscapes("\\\"hi\\\"", "hi");
    TemplateBodyMeaning(t, params, display);
  }

  /** Removing the backslashes of an escaped, quoted text without
      backslashes leaves the bare quotes. */
  lemma {:induction false} StripQuoteEscapes(e: string, mid: string)
    requires e == "\\\"" + mid + "\\\"" && forall i :: 0 <= i < |mid| ==> mid[i] != '\\'
    ensures Replace(e, "\\", "") == "\"" + mid + "\""
  {
    var q: string := ['\\', '"'];
    assert "\\" == ['\\'];
    assert e == q + mid + q;
    ReplaceCharAppend(q + mid, q, '\\', "");
    ReplaceCharAppend(q, mid, '\\', "");
    StripOneEscape(q);
    KeepUnescaped(mid);
  }

  /** An escaped quote loses its backslash. */
  lemma {:induction false} StripOneEscape(q: string)
    requires q == ['\\', '"']
    ensures Replace(q, ['\\'], "") == "\""
  {
    ReplaceCharAppend([q[0]], [q[1]], '\\', "");
    assert [q[0]] + [q[1]] == q;
    assert Replace([q[1]], ['\\'], "") == "\"";
  }

  /** Text without a backslash is kept. */
  lemma {:induction false} KeepUnescaped(mid: string)
    requires forall i :: 0 <= i < |mid| ==> mid[i] != '\\'
    ensures Replace(mid, ['\\'], "") == mid
  {
    forall i: nat ensures !OccursAt(mid, ['\\'], i) {
      if i + 1 <= |mid| {
        assert mid[i..i + 1] == [mid[i]];
      }
    }
    ReplaceAbsent(mid, ['\\'], "");
  }

  /** The worked example of the source: "Hello {name}!" with a string
      parameter `name` becomes `format!("Hello {}!", name)`, and the
      function greets whoever it is given. */
  lemma {:induction false} HelloExample(t: string, params: seq<TemplateParameter>, display: string -> string)
    requires t == "Hello {name}!" && params == [TemplateParameter("name", StringParam)]
    ensures ParsePlaceholders(t, params) == ("Hello {}!", ["name"])
    ensures TemplateBodyAsWritten(t, params) == FormatCall("Hello {}!", ["name"])
    ensures EvalBody(TemplateBody(t, params), display) == Some("Hello " + display("name") + "!")
  {
    HelloFormat(t, params);
    HelloMeaning(t, params, display);
    TemplateBodyMeaning(t, params, display);
  }

  lemma {:induction false} HelloFormat(t: string, params: seq<TemplateParameter>)
    requires t == "Hello {name}!" && params == [TemplateParameter("name", StringParam)]
    ensures ParsePlaceholders(t, params) == ("Hello {}!", ["name"])
  {
    HelloSplit(t);
    HelloPieces(params);
    ParseStep(t, "Hello ", "name", "!", params);
    HelloJoin();
  }

  lemma {:induction false} HelloJoin()
    ensures "Hello " + "{}" + "!" == "Hello {}!" && ["name"] + [] == ["name"]
  {
  }

  lemma {:induction false} HelloMeaning(t: string, params: seq<TemplateParameter>, display: string -> string)
    requires t == "Hello {name}!" && params == [TemplateParameter("name", StringParam)]
    ensures Meaning(t, params, display) == "Hello " + display("name") + "!"
  {
    HelloSplit(t);
    HelloPieces(params);
    MeaningStep(t, "Hello ", "name", "!", params, display);
    assert Meaning("!", params, display) == "!";
  }

  lemma {:induction false} HelloPieces(params: seq<TemplateParameter>)
    requires params == [TemplateParameter("name", StringParam)]
    ensures EscapeDebug("Hello ") == "Hello " && ParsePlaceholders("!", params) == ("!", [])
    ensures FindParam(params, "name").Some? && Sanitize("name") == "name"
  {
    PlainEscapes("Hello ");
    NoPlaceholderTail("!", params);
    SanitizeIdentity("name");
    assert params[0].name == "name";
  }

  /** Text without a character that `escape_debug` rewrites is kept. */
  lemma {:induction false} PlainEscapes(s: string)
    requires s == "Hello " || s == "!"
    ensures EscapeDebug(s) == s
  {
    EscapeDebugIdentity(s);
  }

  /** Text without a '{' has no placeholder and is only escaped. */
  lemma {:induction false} NoPlaceholderTail(s: string, params: seq<TemplateParameter>)
    requires s == "!"
    ensures ParsePlaceholders(s, params) == ("!", [])
  {
    assert IndexOf(s, '{').None?;
    PlainEscapes(s);
  }

  lemma {:induction false} HelloSplit(t: string)
    requires t == "Hello {name}!"
    ensures t == "Hello " + "{" + "name" + "}" + "!"
    ensures '{' !in "Hello " && '}' !in "name"
  {
  }

  // ---------------------------------------------------------------------
  // The generated function

  /** The Rust type of an argument. */
  function RustType(p: ParamType): string {
    match p
    case StringParam => "&str"
    case IntParam => "i64"
    case FloatParam => "f64"
    case BoolParam => "bool"
  }

  /** The parameter type a Rust type name stands for. */
  function ParamTypeOfRust(s: string): Option<ParamType> {
    if s == "&str" then Some(StringParam)
    else if s == "i64" then Some(IntParam)
    else if s == "f64" then Some(FloatParam)
    else if s == "bool" then Some(BoolParam)
    else None
  }

  /** One parameter of the signature: `name: type`, the name sanitized. */
  function ParamDecl(p: TemplateParameter): string {
    Sanitize(p.name) + ": " + RustType(p.paramType)
  }

  /** Reads a parameter declaration back: the name before the first ':',
      then ": " and a known type. */
  function DecodeParamDecl(d: string): Option<(string, ParamType)> {
    match IndexOf(d, ':')
    case None => None
    case Some(i) =>
      if |d| >= i + 2 && d[i + 1] == ' ' then
        match ParamTypeOfRust(d[i + 2..])
        case None => None
        case Some(ty) => Some((d[..i], ty))
      else None
  }

  /** A declaration names the sanitized parameter with its type, and reads
      back as exactly that. */
  lemma {:induction false} ParamDeclRoundTrip(p: TemplateParameter)
    ensures DecodeParamDecl(ParamDecl(p)) == Some((Sanitize(p.name), p.paramType))
  {
    var n := Sanitize(p.name);
    assert ':' !in n;
    DeclSplit(n, RustType(p.paramType));
    RustTypeRead(p.paramType);
  }

  /** Where a declaration splits: at the first ':', which ends the name. */
  lemma {:induction false} DeclSplit(n: string, ty: string)
    requires ':' !in n
    ensures var d := n + ": " + ty;
            IndexOf(d, ':') == Some(|n|) && |d| >= |n| + 2 && d[..|n|] == n && d[|n| + 1] == ' ' && d[|n| + 2..] == ty
  {
    var d := n + ": " + ty;
    assert d == n + [':'] + (" " + ty);
    IndexOfAfter(n, ':', " " + ty);
  }

  /** Each Rust type name reads back as its parameter type. */
  lemma {:induction false} RustTypeRead(t: ParamType)
    ensures ParamTypeOfRust(RustType(t)) == Some(t)
  {
  }

  function ParamDecls(params: seq<TemplateParameter>): (r: seq<string>)
    ensures |r| == |params|
    ensures forall i :: 0 <= i < |params| ==> r[i] == ParamDecl(params[i])
  {
    seq(|params|, i requires 0 <= i < |params| => ParamDecl(params[i]))
  }

  /** The line that returns the text. */
  function BodyLine(b: Body): string {
    match b
    case FormatCall(lit, args) => "format!(\"" + lit + "\", " + Join(args, ", ") + ")"
    case StringCall(lit) => "\"" + lit + "\".to_string()"
  }

  /** `emit_template_function`, as the source writes the body: the
      attribute, the signature with one typed parameter per template
      parameter, the body and the closing brace, each on its own line at
      the given indentation. */
  function EmitTemplateFunction(fnName: string, tpl: Template, indent: nat): (r: string)
    ensures Contains(r, BodyLine(TemplateBodyAsWritten(tpl.template, tpl.parameters)))
  {
    var pad := Spaces(indent);
    var line := BodyLine(TemplateBodyAsWritten(tpl.template, tpl.parameters));
    var head := pad + "#[must_use]\n"
                + pad + "pub fn " + fnName + "(" + Join(ParamDecls(tpl.parameters), ", ") + ") -> String {\n"
                + pad + "    ";
    ContainsMiddle(head, line, "\n" + pad + "}\n");
    head + line + ("\n" + pad + "}\n")
  }

  /** The generated function starts with its attribute and the `pub fn`
      line that declares its name. */
  lemma {:induction false} FunctionHead(fnName: string, tpl: Template, indent: nat)
    ensures Spaces(indent) + "#[must_use]\n" + Spaces(indent) + "pub fn " + fnName + "(" <= EmitTemplateFunction(fnName, tpl, indent)
  {
    var pad := Spaces(indent);
    var pre := pad + "#[must_use]\n" + pad + "pub fn " + fnName + "(";
    var rest := Join(ParamDecls(tpl.parameters), ", ") + ") -> String {\n" + pad + "    ";
    var line := BodyLine(TemplateBodyAsWritten(tpl.template, tpl.parameters));
    assert EmitTemplateFunction(fnName, tpl, indent) == pre + (rest + line + ("\n" + pad + "}\n"));
  }

  /** The generated function of a template whose braces are all declared
      placeholders, with at least one, returns what the template means. */
  lemma {:induction false} DeclaredTemplateFunction(fnName: string, tpl: Template, indent: nat, display: string -> string)
    requires AllDeclared(tpl.template, tpl.parameters) && '{' in tpl.template
    ensures exists b :: Contains(EmitTemplateFunction(fnName, tpl, indent), BodyLine(b))
                        && EvalBody(b, display) == Some(Meaning(tpl.template, tpl.parameters, display))
  {
    var b := TemplateBodyAsWritten(tpl.template, tpl.parameters);
    DeclaredPlaceholdersWork(tpl.template, tpl.parameters, display);
    assert Contains(EmitTemplateFunction(fnName, tpl, indent), BodyLine(b));
  }
}

