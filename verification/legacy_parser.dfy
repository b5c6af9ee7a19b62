/** The XML reader of the legacy pipeline (codegen/parser/mod.rs and
    codegen/parser/advanced.rs): a state machine over XML events that
    tracks the enclosing `<ns>` elements, the element being read, the items
    of an array and the template being collected, and files every value it
    reads into a map from resource type to the (name, value) pairs in
    document order.

    The handlers for strings, numbers, booleans and arrays live in files
    that are not part of this model (codegen/parser/basic.rs and
    codegen/parser/arrays.rs); they are a parameter here. Colors, URLs,
    dimensions and templates are modelled. */
module LegacyParser {
  import opened Wrappers
  import opened Text
  import opened Xml
  import opened LegacyTypes
  import opened LegacyReferences
  import opened LegacyTemplates

  /** `ParserState`. */
  datatype ParserState = ParserState(
    currentTag: string,
    currentName: string,
    currentProfile: Option<string>,
    arrayItems: seq<string>,
    inArray: bool,
    namespaceStack: seq<string>,
    templateState: TemplateState,
    inTemplate: bool)

  /** `ParserState::new`. */
  const NewParser := ParserState("", "", None, [], false, [], NewState, false)

  /** How an open `<param>` tag inside a template names the value being
      read: `AsWritten` as the source computes it (the parameter's name
      replaces the element's), `Corrected` leaving the element's name
      alone. */
  datatype Naming = AsWritten | Corrected

  /** The handlers defined outside this model: `basic` files the trimmed
      text of a `string`, `int`, `float` or `bool` element (given the tag,
      the text and the qualified name), and `arrayEnd` files the items of
      an array when its end tag is read; `naming` picks the naming rule of
      a template's `<param>`. */
  datatype Handlers = Handlers(
    basic: (string, string, string, Resources) -> Resources,
    arrayEnd: (string, string, seq<string>, Resources) -> Resources,
    naming: Naming)

  predicate EndsWith(s: string, suffix: string) {
    |suffix| <= |s| && s[|s| - |suffix|..] == suffix
  }

  /** `entry(ty).or_default().push((name, v))`: the pair goes at the end of
      its type's list, which is created when missing; every other type is
      left alone. */
  function Push(res: Resources, ty: string, name: string, v: Value): (r: Resources)
    ensures ty in r && r[ty] == (if ty in res then res[ty] else []) + [(name, v)]
    ensures r.Keys == res.Keys + {ty}
    ensures forall t :: t in res && t != ty ==> r[t] == res[t]
  {
    res[ty := (if ty in res then res[ty] else []) + [(name, v)]]
  }

  /** The name of a value read inside the namespaces `stack`: the
      namespaces and the local name joined by '/'. */
  function QualifiedName(stack: seq<string>, local: string): string {
    if |stack| == 0 then local else Join(stack, "/") + "/" + local
  }

  /** A qualified name is the path of namespaces ending in the local
      name. */
  lemma {:induction false} QualifiedNamePath(stack: seq<string>, local: string)
    ensures QualifiedName(stack, local) == Join(stack + [local], "/")
  {
    if |stack| == 0 {
      assert stack + [local] == [local];
    } else {
      JoinSnoc(stack, local, "/");
    }
  }

  // ---------------------------------------------------------------------
  // Start and empty tags

  /** The name being read after a start tag, as the source computes it:
      any tag other than `ns` that carries a name attribute renames the
      value being read, a `<param>` of a template included. */
  function StartNameAsWritten(st: ParserState, tag: string, nameAttr: Option<string>): (r: string)
    ensures tag == "ns" ==> r == ""
    ensures tag != "ns" && nameAttr.Some? ==> r == QualifiedName(st.namespaceStack, nameAttr.value)
    ensures tag != "ns" && nameAttr.None? ==> r == st.currentName
  {
    if tag == "ns" then ""
    else match nameAttr
      case Some(local) => QualifiedName(st.namespaceStack, local)
      case None => st.currentName
  }

  /** The name being read after a start tag, with a template's `<param>`
      leaving the name of the template's element alone. */
  function StartName(st: ParserState, tag: string, nameAttr: Option<string>): (r: string)
    ensures tag == "ns" ==> r == ""
    ensures tag != "ns" && !(tag == "param" && st.inTemplate) && nameAttr.Some? ==>
              r == QualifiedName(st.namespaceStack, nameAttr.value)
    ensures (tag == "param" && st.inTemplate) || (tag != "ns" && nameAttr.None?) ==> r == st.currentName
    ensures !(tag == "param" && st.inTemplate) ==> r == StartNameAsWritten(st, tag, nameAttr)
  {
    if tag == "param" && st.inTemplate then st.currentName
    else StartNameAsWritten(st, tag, nameAttr)
  }

  /** `parse_param_attributes`: a parameter is added when both its name
      and its type are given. */
  function ParamAttributes(ts: TemplateState, attrs: Attrs): (r: TemplateState)
    ensures AttrValue(attrs, "name").Some? && AttrValue(attrs, "type").Some? ==>
              r == AddParam(ts, AttrValue(attrs, "name").value, AttrValue(attrs, "type").value)
    ensures AttrValue(attrs, "name").None? || AttrValue(attrs, "type").None? ==> r == ts
  {
    match (AttrValue(attrs, "name"), AttrValue(attrs, "type"))
    case (Some(n), Some(t)) => AddParam(ts, n, t)
    case _ => ts
  }

  /** The name a start tag leaves current, by the source's rule or the
      corrected one. */
  function NameAt(st: ParserState, tag: string, nameAttr: Option<string>, nm: Naming): string {
    if nm == AsWritten then StartNameAsWritten(st, tag, nameAttr) else StartName(st, tag, nameAttr)
  }

  /** `handle_start_event`. */
  function HandleStart(st: ParserState, tag: string, attrs: Attrs, nm: Naming): (r: ParserState)
    ensures r.currentTag == tag
    ensures nm == AsWritten ==> r.currentName == StartNameAsWritten(st, tag, AttrValue(attrs, "name"))
    ensures nm == Corrected ==> r.currentName == StartName(st, tag, AttrValue(attrs, "name"))
    ensures r.namespaceStack ==
              st.namespaceStack + (if tag == "ns" && AttrValue(attrs, "name").Some? then [AttrValue(attrs, "name").value] else [])
    ensures r.inArray == (st.inArray || EndsWith(tag, "-array"))
    ensures EndsWith(tag, "-array") ==> r.arrayItems == []
    ensures !EndsWith(tag, "-array") ==> r.arrayItems == st.arrayItems
    ensures r.inTemplate == (st.inTemplate || (tag == "string" && AttrValue(attrs, "template").Some?))
    ensures tag == "string" && AttrValue(attrs, "template").Some? ==>
              r.templateState == SetTemplate(st.templateState, AttrValue(attrs, "template").value)
    ensures tag == "param" && st.inTemplate ==> r.templateState == ParamAttributes(st.templateState, attrs)
    ensures tag != "param" && !(tag == "string" && AttrValue(attrs, "template").Some?) ==>
              r.templateState == st.templateState
  {
    var nameAttr := AttrValue(attrs, "name");
    var profile := match AttrValue(attrs, "profile")
      case Some(p) => Some(p)
      case None => st.currentProfile;
    var stack := if tag == "ns" && nameAttr.Some? then st.namespaceStack + [nameAttr.value] else st.namespaceStack;
    var s1 := st.(currentTag := tag, currentProfile := profile, namespaceStack := stack,
                  currentName := NameAt(st, tag, nameAttr, nm));
    var s2 := if EndsWith(tag, "-array") then s1.(inArray := true, arrayItems := []) else s1;
    var s3 := match AttrValue(attrs, "template")
      case Some(t) =>
        if tag == "string" then s2.(inTemplate := true, templateState := SetTemplate(s2.templateState, t)) else s2
      case None => s2;
    if tag == "param" && s3.inTemplate then s3.(templateState := ParamAttributes(s3.templateState, attrs)) else s3
  }

  /** `handle_empty_event`: a self-closing tag only matters as a template
      parameter. */
  function HandleEmpty(st: ParserState, tag: string, attrs: Attrs): (r: ParserState)
    ensures tag == "param" && st.inTemplate ==> r == st.(templateState := ParamAttributes(st.templateState, attrs))
    ensures !(tag == "param" && st.inTemplate) ==> r == st
  {
    if tag == "param" && st.inTemplate then st.(templateState := ParamAttributes(st.templateState, attrs)) else st
  }

  // ---------------------------------------------------------------------
  // Text

  /** `handle_color`: a color that starts with '@' is read as a string
      value (a reference or an interpolation); any other text is the color
      itself. */
  function ColorValueOf(text: string): (r: Value)
    ensures |text| > 0 && text[0] == '@' ==> r == ParseStringValue(text)
    ensures !(|text| > 0 && text[0] == '@') ==> r == ColorValue(text)
  {
    if |text| > 0 && text[0] == '@' then ParseStringValue(text) else ColorValue(text)
  }

  /** A color is never a plain string: it is a color, a reference or an
      interpolation. */
  lemma {:induction false} ColorNeverPlainString(text: string)
    ensures ColorValueOf(text).ColorValue? || ColorValueOf(text).Reference? || ColorValueOf(text).Interpolated?
  {
    if |text| > 0 && text[0] == '@' {
      assert '@' in text;
    }
  }

  /** The value elements this model reads itself. */
  function AdvancedValue(tag: string, text: string): Option<(string, Value)> {
    if tag == "color" then Some(("color", ColorValueOf(text)))
    else if tag == "url" then Some(("url", UrlValue(text)))
    else if tag == "dimension" then Some(("dimension", DimensionValue(text)))
    else None
  }

  /** `handle_text_event`: the trimmed text becomes an array item inside an
      array's `<item>`; otherwise, outside a template and once a name is
      known, the value of the element being read. */
  function HandleText(st: ParserState, text: string, res: Resources, h: Handlers): (r: (ParserState, Resources))
    ensures var t := Trim(text);
            t != [] && st.inArray && st.currentTag == "item" ==>
              r == (st.(arrayItems := st.arrayItems + [t]), res)
    ensures var t := Trim(text);
            t != [] && !(st.inArray && st.currentTag == "item") && st.currentName != [] && !st.inTemplate
            && AdvancedValue(st.currentTag, t).Some? ==>
              r == (st, Push(res, AdvancedValue(st.currentTag, t).value.0, st.currentName, AdvancedValue(st.currentTag, t).value.1))
    ensures r.0.currentName == st.currentName && r.0.currentTag == st.currentTag
    ensures r.0.namespaceStack == st.namespaceStack && r.0.templateState == st.templateState
    ensures !(Trim(text) != [] && st.inArray && st.currentTag == "item") ==> r.0 == st
    ensures Trim(text) == [] || st.inTemplate || st.currentName == [] ==> r.1 == res
  {
    var t := Trim(text);
    if t == [] then (st, res)
    else if st.inArray && st.currentTag == "item" then (st.(arrayItems := st.arrayItems + [t]), res)
    else if st.currentName != [] && !st.inTemplate then
      var tag := st.currentTag;
      if tag in ["string", "int", "float", "bool"] then (st, h.basic(tag, t, st.currentName, res))
      else match AdvancedValue(tag, t)
        case Some((ty, v)) => (st, Push(res, ty, st.currentName, v))
        case None => (st, res)
    else (st, res)
  }

  // ---------------------------------------------------------------------
  // End tags

  /** `handle_end_event`: an array's end files its items, a `</string>`
      inside a template files the template under the element's name, a
      `</ns>` leaves the innermost namespace, and every end clears the tag
      being read. */
  function HandleEnd(st: ParserState, tag: string, res: Resources, h: Handlers): (r: (ParserState, Resources))
    ensures r.0.currentTag == "" && r.0.currentName == st.currentName
    ensures tag == "ns" && |st.namespaceStack| > 0 ==> r.0.namespaceStack == st.namespaceStack[..|st.namespaceStack| - 1]
    ensures tag != "ns" || |st.namespaceStack| == 0 ==> r.0.namespaceStack == st.namespaceStack
    ensures tag == "string" && st.inTemplate ==> !r.0.inTemplate && r.0.templateState == NewState
    ensures tag == "string" && st.inTemplate && !EndsWith(tag, "-array") ==>
              r.1 == match FinalizeTemplate(st.templateState)
                     case Some(v) => Push(res, "string", st.currentName, v)
                     case None => res
    ensures EndsWith(tag, "-array") && st.inArray ==> !r.0.inArray && r.0.arrayItems == []
    ensures !(EndsWith(tag, "-array") && st.inArray) && !(tag == "string" && st.inTemplate) ==> r.1 == res
  {
    var (s1, r1) :=
      if EndsWith(tag, "-array") && st.inArray then
        (st.(inArray := false, arrayItems := []), h.arrayEnd(tag, st.currentName, st.arrayItems, res))
      else (st, res);
    var (s2, r2) :=
      if tag == "string" && s1.inTemplate then
        var r := match FinalizeTemplate(s1.templateState)
          case Some(v) => Push(r1, "string", s1.currentName, v)
          case None => r1;
        (s1.(templateState := NewState, inTemplate := false), r)
      else (s1, r1);
    var stack := if tag == "ns" && |s2.namespaceStack| > 0 then s2.namespaceStack[..|s2.namespaceStack| - 1]
                 else s2.namespaceStack;
    (s2.(namespaceStack := stack, currentTag := ""), r2)
  }

  // ---------------------------------------------------------------------
  // The event loop

  /** One turn of the event loop. */
  function Step(st: ParserState, res: Resources, e: Event, h: Handlers): (ParserState, Resources)
    requires !e.Error?
  {
    match e
    case Start(tag, attrs) => (HandleStart(st, tag, attrs, h.naming), res)
    case Empty(tag, attrs) => (HandleEmpty(st, tag, attrs), res)
    case Text(t) => HandleText(st, t, res, h)
    case End(tag) => HandleEnd(st, tag, res, h)
    case Other => (st, res)
  }

  /** The message `parse_resources` returns for a tokenizer error. */
  function ParseErrorMessage(position: nat, message: string): string {
    "XML parsing error at position " + NatToString(position) + ": " + message
  }

  /** The event loop from a state and the resources read so far. */
  function Run(st: ParserState, res: Resources, evs: seq<Event>, h: Handlers): Result<Resources, string>
    decreases |evs|
  {
    if |evs| == 0 then Ok(res)
    else if evs[0].Error? then Err(ParseErrorMessage(evs[0].position, evs[0].message))
    else
      var (st', res') := Step(st, res, evs[0], h);
      Run(st', res', evs[1..], h)
  }

  /** `parse_resources`, with the source's naming: it fails exactly when
      the tokenizer reports an error. */
  function ParseResources(evs: seq<Event>, basic: (string, string, string, Resources) -> Resources,
                          arrayEnd: (string, string, seq<string>, Resources) -> Resources): (r: Result<Resources, string>)
    ensures r.Err? <==> HasError(evs)
  {
    var h := Handlers(basic, arrayEnd, AsWritten);
    if HasError(evs) then RunFails(NewParser, map[], evs, h); Run(NewParser, map[], evs, h)
    else RunFinal(NewParser, map[], evs, h); Run(NewParser, map[], evs, h)
  }

  /** A stream with a tokenizer error anywhere in it fails. */
  lemma {:induction false} RunFails(st: ParserState, res: Resources, evs: seq<Event>, h: Handlers)
    requires HasError(evs)
    ensures Run(st, res, evs, h).Err?
    decreases |evs|
  {
    if !evs[0].Error? {
      var i :| 0 <= i < |evs| && evs[i].Error?;
      assert evs[1..][i - 1].Error?;
      var (st', res') := Step(st, res, evs[0], h);
      RunFails(st', res', evs[1..], h);
    }
  }

  /** The state and resources after the events, all error free. */
  function Final(st: ParserState, res: Resources, evs: seq<Event>, h: Handlers): (ParserState, Resources)
    requires !HasError(evs)
    decreases |evs|
  {
    if |evs| == 0 then (st, res)
    else
      NoErrorTail(evs);
      var (st', res') := Step(st, res, evs[0], h);
      Final(st', res', evs[1..], h)
  }

  /** An error-free stream yields the resources of its final state. */
  lemma {:induction false} RunFinal(st: ParserState, res: Resources, evs: seq<Event>, h: Handlers)
    requires !HasError(evs)
    ensures Run(st, res, evs, h) == Ok(Final(st, res, evs, h).1)
    decreases |evs|
  {
    if |evs| > 0 {
      NoErrorTail(evs);
      var (st', res') := Step(st, res, evs[0], h);
      RunFinal(st', res', evs[1..], h);
    }
  }

  /** The first tokenizer error ends the run with its position and
      message, whatever came before it. */
  lemma {:induction false} RunError(st: ParserState, res: Resources, a: seq<Event>, pos: nat, msg: string, b: seq<Event>, h: Handlers)
    requires !HasError(a)
    ensures Run(st, res, a + [Error(pos, msg)] + b, h) == Err(ParseErrorMessage(pos, msg))
    decreases |a|
  {
    var evs := a + [Error(pos, msg)] + b;
    if |a| == 0 {
      assert evs[0] == Error(pos, msg);
    } else {
      NoErrorTail(a);
      assert evs[0] == a[0] && evs[1..] == a[1..] + [Error(pos, msg)] + b;
      var (st', res') := Step(st, res, a[0], h);
      RunError(st', res', a[1..], pos, msg, b, h);
    }
  }

  /** Reading two streams one after the other is reading their
      concatenation. */
  lemma {:induction false} FinalAppend(st: ParserState, res: Resources, a: seq<Event>, b: seq<Event>, h: Handlers)
    requires !HasError(a) && !HasError(b)
    ensures !HasError(a + b)
    ensures Final(st, res, a + b, h) == Final(Final(st, res, a, h).0, Final(st, res, a, h).1, b, h)
    decreases |a|
  {
    NoErrorAppend(a, b);
    if |a| == 0 {
      assert a + b == b;
    } else {
      NoErrorTail(a);
      NoErrorTail(a + b);
      assert (a + b)[0] == a[0] && (a + b)[1..] == a[1..] + b;
      var (st', res') := Step(st, res, a[0], h);
      FinalAppend(st', res', a[1..], b, h);
    }
  }

  // ---------------------------------------------------------------------
  // Documents

  /** One event in front of the rest. */
  lemma {:induction false} FinalStep(st: ParserState, res: Resources, evs: seq<Event>, h: Handlers)
    requires !HasError(evs) && |evs| > 0
    ensures !HasError(evs[1..])
    ensures Final(st, res, evs, h) == Final(Step(st, res, evs[0], h).0, Step(st, res, evs[0], h).1, evs[1..], h)
  {
    NoErrorTail(evs);
  }

  lemma {:induction false} OneAttr(a: string, x: string, k: string)
    ensures AttrValue([(a, x)], k) == if k == a then Some(x) else None
  {
    if k != a {
      assert [(a, x)][1..] == [];
    }
  }

  lemma {:induction false} TwoAttrs(a: string, x: string, b: string, y: string, k: string)
    requires a != b
    ensures AttrValue([(a, x), (b, y)], k) == if k == a then Some(x) else if k == b then Some(y) else None
  {
    if k != a {
      assert [(a, x), (b, y)][1..] == [(b, y)];
      OneAttr(b, y, k);
    }
  }

  /** A state outside every namespace, array and template. */
  predicate AtTop(st: ParserState) {
    st.namespaceStack == [] && !st.inArray && !st.inTemplate && st.templateState == NewState
  }

  /** Three events, one after the other. */
  lemma {:induction false} FinalThree(st: ParserState, res: Resources, e1: Event, e2: Event, e3: Event, h: Handlers)
    requires !e1.Error? && !e2.Error? && !e3.Error?
    ensures !HasError([e1, e2, e3])
    ensures var (s1, r1) := Step(st, res, e1, h);
            var (s2, r2) := Step(s1, r1, e2, h);
            Final(st, res, [e1, e2, e3], h) == Step(s2, r2, e3, h)
  {
    var evs := [e1, e2, e3];
    assert !HasError(evs);
    FinalStep(st, res, evs, h);
    var (s1, r1) := Step(st, res, e1, h);
    assert evs[1..] == [e2, e3];
    FinalStep(s1, r1, evs[1..], h);
    var (s2, r2) := Step(s1, r1, e2, h);
    assert evs[1..][1..] == [e3];
    FinalStep(s2, r2, evs[1..][1..], h);
    assert evs[1..][1..][1..] == [];
  }

  /** `<color name="k">text</color>`, read outside arrays and templates,
      files the color under `k` qualified by the enclosing namespaces, and
      leaves the namespaces and the template alone. */
  lemma {:induction false} ColorElement(st: ParserState, res: Resources, k: string, text: string, h: Handlers)
    requires !st.inArray && !st.inTemplate && k != []
    requires Trim(text) != [] && Trim(text)[0] != '@'
    ensures var evs := [Start("color", [("name", k)]), Text(text), End("color")];
            var s := Final(st, res, evs, h).0;
            !HasError(evs)
            && Final(st, res, evs, h).1 == Push(res, "color", QualifiedName(st.namespaceStack, k), ColorValue(Trim(text)))
            && s.namespaceStack == st.namespaceStack && !s.inArray && !s.inTemplate && s.templateState == st.templateState
  {
    var evs := [Start("color", [("name", k)]), Text(text), End("color")];
    var rest := [Text(text), End("color")];
    assert !HasError(rest);
    var s1 := OpenColor(st, res, k, rest, h);
    assert [Start("color", [("name", k)])] + rest == evs;
    assert var f := Final(s1, res, rest, h);
           f.1 == Push(res, "color", s1.currentName, ColorValue(Trim(text)))
           && f.0.namespaceStack == s1.namespaceStack && !f.0.inArray && !f.0.inTemplate && f.0.templateState == s1.templateState by {
      ColorFinal(s1, res, text, h);
    }
  }

  /** Reading a colour's start tag, in front of any other events, names
      the resource in its namespaces. */
  lemma {:induction false} OpenColor(st: ParserState, res: Resources, k: string, rest: seq<Event>, h: Handlers) returns (s1: ParserState)
    requires !st.inArray && !st.inTemplate && k != [] && !HasError(rest)
    ensures !HasError([Start("color", [("name", k)])] + rest)
    ensures Final(st, res, [Start("color", [("name", k)])] + rest, h) == Final(s1, res, rest, h)
    ensures && s1.currentName == QualifiedName(st.namespaceStack, k) && s1.currentName != [] && s1.currentTag == "color"
            && s1.namespaceStack == st.namespaceStack && !s1.inArray && !s1.inTemplate && s1.templateState == st.templateState
  {
    var evs := [Start("color", [("name", k)])] + rest;
    assert !HasError(evs) by {
      forall i | 0 <= i < |evs| ensures !evs[i].Error? {
        if i > 0 {
          assert evs[i] == rest[i - 1];
        }
      }
    }
    FinalStep(st, res, evs, h);
    assert evs[1..] == rest;
    ColorStart(st, k, h.naming);
    s1 := HandleStart(st, "color", [("name", k)], h.naming);
  }

  /** After a colour's start tag, its text and end tag file the colour
      under the current name and keep the namespaces and the template. */
  lemma {:induction false} ColorFinal(s1: ParserState, res: Resources, text: string, h: Handlers)
    requires s1.currentTag == "color" && s1.currentName != [] && !s1.inArray && !s1.inTemplate
    requires Trim(text) != [] && Trim(text)[0] != '@'
    ensures var rest := [Text(text), End("color")];
            !HasError(rest)
            && var f := Final(s1, res, rest, h);
               f.1 == Push(res, "color", s1.currentName, ColorValue(Trim(text)))
               && f.0.namespaceStack == s1.namespaceStack && !f.0.inArray && !f.0.inTemplate && f.0.templateState == s1.templateState
  {
    var rest := [Text(text), End("color")];
    var r2 := Push(res, "color", s1.currentName, ColorValue(Trim(text)));
    assert !HasError(rest);
    assert Final(s1, res, rest, h) == HandleEnd(s1, "color", r2, h) by {
      FinalStep(s1, res, rest, h);
      ColorText(s1, res, text, h);
      assert rest[1..] == [End("color")];
      FinalStep(s1, r2, rest[1..], h);
      assert rest[1..][1..] == [];
    }
    ColorEnd(s1, r2, h);
  }

  /** The text of a colour, outside arrays and templates, is filed under
      the colour's name. */
  lemma {:induction false} ColorText(s1: ParserState, res: Resources, text: string, h: Handlers)
    requires s1.currentTag == "color" && s1.currentName != [] && !s1.inArray && !s1.inTemplate
    requires Trim(text) != [] && Trim(text)[0] != '@'
    ensures HandleText(s1, text, res, h) == (s1, Push(res, "color", s1.currentName, ColorValue(Trim(text))))
  {
    assert AdvancedValue("color", Trim(text)) == Some(("color", ColorValue(Trim(text))));
  }

  /** The end of a colour, outside arrays and templates, files nothing more
      and keeps the namespaces and the template. */
  lemma {:induction false} ColorEnd(s1: ParserState, res: Resources, h: Handlers)
    requires !s1.inArray && !s1.inTemplate
    ensures var s := HandleEnd(s1, "color", res, h);
            s.1 == res && s.0.namespaceStack == s1.namespaceStack && !s.0.inArray && !s.0.inTemplate
            && s.0.templateState == s1.templateState
  {
  }

  /** The start tag of a colour names the resource in its namespaces. */
  lemma {:induction false} ColorStart(st: ParserState, k: string, nm: Naming)
    requires !st.inArray && !st.inTemplate && k != []
    ensures var s1 := HandleStart(st, "color", [("name", k)], nm);
            && s1.currentName == QualifiedName(st.namespaceStack, k) && s1.currentName != [] && s1.currentTag == "color"
            && s1.namespaceStack == st.namespaceStack && !s1.inArray && !s1.inTemplate && s1.templateState == st.templateState
  {
    OneAttr("name", k, "name");
    OneAttr("name", k, "template");
    assert |QualifiedName(st.namespaceStack, k)| >= |k|;
  }

  /** A template element, with its parameter written as a self-closing
      tag, files the template under the element's name. */
  lemma {:induction false} TemplateWithEmptyParam(st: ParserState, res: Resources, n: string, t: string, p: string, ty: string, h: Handlers)
    requires AtTop(st) && t != []
    ensures var evs := [Start("string", [("name", n), ("template", t)]), Empty("param", [("name", p), ("type", ty)]), End("string")];
            !HasError(evs)
            && Final(st, res, evs, h).1 == Push(res, "string", n, TemplateValue(Template(t, [TemplateParameter(p, ParamTypeOf(ty))])))
            && AtTop(Final(st, res, evs, h).0)
  {
    var evs := [Start("string", [("name", n), ("template", t)]), Empty("param", [("name", p), ("type", ty)]), End("string")];
    var rest := [Empty("param", [("name", p), ("type", ty)]), End("string")];
    var s1 := OpenTemplate(st, res, n, t, rest, h);
    assert [Start("string", [("name", n), ("template", t)])] + rest == evs;
    assert Final(s1, res, rest, h).1 == Push(res, "string", n, TemplateValue(Template(t, [TemplateParameter(p, ParamTypeOf(ty))])))
           && AtTop(Final(s1, res, rest, h).0) by {
      EmptyParamFinal(s1, res, n, t, p, ty, h);
    }
  }

  /** Inside the template, a self-closing parameter and the element's end
      tag file the template with that parameter. */
  lemma {:induction false} EmptyParamFinal(s1: ParserState, res: Resources, n: string, t: string, p: string, ty: string, h: Handlers)
    requires s1.currentName == n && s1.inTemplate && s1.templateState == TemplateState(Some(t), []) && !s1.inArray
    requires s1.namespaceStack == [] && t != []
    ensures var rest := [Empty("param", [("name", p), ("type", ty)]), End("string")];
            !HasError(rest)
            && Final(s1, res, rest, h).1 == Push(res, "string", n, TemplateValue(Template(t, [TemplateParameter(p, ParamTypeOf(ty))])))
            && AtTop(Final(s1, res, rest, h).0)
  {
    var rest := [Empty("param", [("name", p), ("type", ty)]), End("string")];
    var s2 := HandleEmpty(s1, "param", [("name", p), ("type", ty)]);
    assert !HasError(rest);
    FinalStep(s1, res, rest, h);
    assert rest[1..] == [End("string")];
    FinalStep(s2, res, rest[1..], h);
    assert rest[1..][1..] == [];
    EmptyParamThenEnd(s1, res, n, t, p, ty, h);
  }

  /** Reading a template element's start tag at the top level, in front of
      any other events, leaves a state collecting the template under the
      element's name. */
  lemma {:induction false} OpenTemplate(st: ParserState, res: Resources, n: string, t: string, rest: seq<Event>, h: Handlers)
      returns (s1: ParserState)
    requires AtTop(st) && !HasError(rest)
    ensures !HasError([Start("string", [("name", n), ("template", t)])] + rest)
    ensures Final(st, res, [Start("string", [("name", n), ("template", t)])] + rest, h) == Final(s1, res, rest, h)
    ensures s1.currentName == n && s1.inTemplate && s1.templateState == TemplateState(Some(t), [])
            && !s1.inArray && s1.namespaceStack == []
  {
    var evs := [Start("string", [("name", n), ("template", t)])] + rest;
    assert !HasError(evs) by {
      forall i | 0 <= i < |evs| ensures !evs[i].Error? {
        if i > 0 {
          assert evs[i] == rest[i - 1];
        }
      }
    }
    FinalStep(st, res, evs, h);
    assert evs[1..] == rest;
    TemplateStart(st, n, t, h.naming);
    s1 := HandleStart(st, "string", [("name", n), ("template", t)], h.naming);
  }

  /** Opening a template element at the top level starts collecting the
      template under the element's name. */
  lemma {:induction false} TemplateStart(st: ParserState, n: string, t: string, nm: Naming)
    requires AtTop(st)
    ensures var s1 := HandleStart(st, "string", [("name", n), ("template", t)], nm);
            s1.currentName == n && s1.inTemplate && s1.templateState == TemplateState(Some(t), [])
            && !s1.inArray && s1.namespaceStack == []
  {
    TwoAttrs("name", n, "template", t, "name");
    TwoAttrs("name", n, "template", t, "template");
  }

  lemma {:induction false} EmptyParamThenEnd(s1: ParserState, res: Resources, n: string, t: string, p: string, ty: string, h: Handlers)
    requires s1.currentName == n && s1.inTemplate && s1.templateState == TemplateState(Some(t), []) && !s1.inArray
    requires s1.namespaceStack == [] && t != []
    ensures var s2 := HandleEmpty(s1, "param", [("name", p), ("type", ty)]);
            var s3 := HandleEnd(s2, "string", res, h);
            s3.1 == Push(res, "string", n, TemplateValue(Template(t, [TemplateParameter(p, ParamTypeOf(ty))])))
            && AtTop(s3.0)
  {
    TwoAttrs("name", p, "type", ty, "name");
    TwoAttrs("name", p, "type", ty, "type");
    var s2 := HandleEmpty(s1, "param", [("name", p), ("type", ty)]);
    assert s2.templateState == TemplateState(Some(t), [] + [TemplateParameter(p, ParamTypeOf(ty))]);
    TemplateEnd(s2, res, n, t, TemplateParameter(p, ParamTypeOf(ty)), h);
  }

  /** Closing the template element with one parameter collected files the
      template and returns to the top level. */
  lemma {:induction false} TemplateEnd(s: ParserState, res: Resources, n: string, t: string, param: TemplateParameter, h: Handlers)
    requires s.currentName == n && s.inTemplate && s.templateState == TemplateState(Some(t), [param]) && !s.inArray
    requires s.namespaceStack == [] && t != []
    ensures HandleEnd(s, "string", res, h).1 == Push(res, "string", n, TemplateValue(Template(t, [param])))
    ensures AtTop(HandleEnd(s, "string", res, h).0)
  {
  }

  /** The same element with its parameter written as an open and a close
      tag files the template under the name the naming rule gives the
      open `<param>`: the element's under the corrected rule, the
      parameter's as the source computes it. */
  lemma {:induction false} ParamElementDocument(st: ParserState, res: Resources, n: string, t: string, p: string, ty: string, h: Handlers)
    requires AtTop(st) && t != []
    ensures var evs := [Start("string", [("name", n), ("template", t)]), Start("param", [("name", p), ("type", ty)]), End("param"), End("string")];
            !HasError(evs)
            && Final(st, res, evs, h).1
               == Push(res, "string", if h.naming == Corrected then n else p, TemplateValue(Template(t, [TemplateParameter(p, ParamTypeOf(ty))])))
            && AtTop(Final(st, res, evs, h).0)
  {
    var evs := [Start("string", [("name", n), ("template", t)]), Start("param", [("name", p), ("type", ty)]), End("param"), End("string")];
    var rest := [Start("param", [("name", p), ("type", ty)]), End("param"), End("string")];
    var named := if h.naming == Corrected then n else p;
    assert !HasError(rest);
    var s1 := OpenTemplate(st, res, n, t, rest, h);
    assert [Start("string", [("name", n), ("template", t)])] + rest == evs;
    assert Final(s1, res, rest, h).1 == Push(res, "string", named, TemplateValue(Template(t, [TemplateParameter(p, ParamTypeOf(ty))])))
           && AtTop(Final(s1, res, rest, h).0) by {
      ParamThenEnd(s1, res, n, t, p, ty, h, named);
    }
  }

  /** With the corrected naming, the template is filed under the
      element's name. */
  lemma {:induction false} TemplateWithParamElement(st: ParserState, res: Resources, n: string, t: string, p: string, ty: string, h: Handlers)
    requires AtTop(st) && t != [] && h.naming == Corrected
    ensures var evs := [Start("string", [("name", n), ("template", t)]), Start("param", [("name", p), ("type", ty)]), End("param"), End("string")];
            !HasError(evs)
            && Final(st, res, evs, h).1 == Push(res, "string", n, TemplateValue(Template(t, [TemplateParameter(p, ParamTypeOf(ty))])))
            && AtTop(Final(st, res, evs, h).0)
  {
    ParamElementDocument(st, res, n, t, p, ty, h);
  }

  /** As the source computes names, the open `<param>` tag renames the
      value being read to the parameter's name, so the template is filed
      under the parameter's name instead of the element's. */
  lemma {:induction false} ParamRenamesTemplate(st: ParserState, res: Resources, n: string, t: string, p: string, ty: string, h: Handlers)
    requires AtTop(st) && t != [] && h.naming == AsWritten
    ensures var evs := [Start("string", [("name", n), ("template", t)]), Start("param", [("name", p), ("type", ty)]), End("param"), End("string")];
            !HasError(evs)
            && Final(st, res, evs, h).1 == Push(res, "string", p, TemplateValue(Template(t, [TemplateParameter(p, ParamTypeOf(ty))])))
            && AtTop(Final(st, res, evs, h).0)
  {
    ParamElementDocument(st, res, n, t, p, ty, h);
  }

  lemma {:induction false} ParamThenEnd(s1: ParserState, res: Resources, n: string, t: string, p: string, ty: string, h: Handlers, named: string)
    requires s1.currentName == n && s1.inTemplate && s1.templateState == TemplateState(Some(t), []) && !s1.inArray
    requires s1.namespaceStack == [] && t != []
    requires named == if h.naming == Corrected then n else p
    ensures var evs := [Start("param", [("name", p), ("type", ty)]), End("param"), End("string")];
            !HasError(evs)
            && Final(s1, res, evs, h).1 == Push(res, "string", named, TemplateValue(Template(t, [TemplateParameter(p, ParamTypeOf(ty))])))
            && AtTop(Final(s1, res, evs, h).0)
  {
    FinalThree(s1, res, Start("param", [("name", p), ("type", ty)]), End("param"), End("string"), h);
    ParamOpenClose(s1, res, n, t, p, ty, h, named);
    var (a, ra) := Step(s1, res, Start("param", [("name", p), ("type", ty)]), h);
    var (b, rb) := Step(a, ra, End("param"), h);
    TemplateEnd(b, res, named, t, TemplateParameter(p, ParamTypeOf(ty)), h);
  }

  /** An open and a close `<param>` tag inside a template collect the
      parameter, file nothing, and leave the name the naming rule gives. */
  lemma {:induction false} ParamOpenClose(s1: ParserState, res: Resources, n: string, t: string, p: string, ty: string, h: Handlers, named: string)
    requires s1.currentName == n && s1.inTemplate && s1.templateState == TemplateState(Some(t), []) && !s1.inArray
    requires s1.namespaceStack == []
    requires named == if h.naming == Corrected then n else p
    ensures var (a, ra) := Step(s1, res, Start("param", [("name", p), ("type", ty)]), h);
            var (b, rb) := Step(a, ra, End("param"), h);
            rb == res && b.currentName == named && b.inTemplate && !b.inArray && b.namespaceStack == []
            && b.templateState == TemplateState(Some(t), [TemplateParameter(p, ParamTypeOf(ty))])
  {
    ParamStart(s1, n, t, p, ty, h.naming);
    var s2 := HandleStart(s1, "param", [("name", p), ("type", ty)], h.naming);
    ParamEnd(s2, res, h);
  }

  /** An open `<param>` tag inside a template collects the parameter and
      names the value being read by the naming rule. */
  lemma {:induction false} ParamStart(s1: ParserState, n: string, t: string, p: string, ty: string, nm: Naming)
    requires s1.currentName == n && s1.inTemplate && s1.templateState == TemplateState(Some(t), []) && !s1.inArray
    requires s1.namespaceStack == []
    ensures var s2 := HandleStart(s1, "param", [("name", p), ("type", ty)], nm);
            s2.templateState == TemplateState(Some(t), [TemplateParameter(p, ParamTypeOf(ty))])
            && s2.currentName == (if nm == Corrected then n else p) && s2.inTemplate && !s2.inArray && s2.namespaceStack == []
  {
    TwoAttrs("name", p, "type", ty, "name");
    TwoAttrs("name", p, "type", ty, "type");
    TwoAttrs("name", p, "type", ty, "template");
    var s2 := HandleStart(s1, "param", [("name", p), ("type", ty)], nm);
    assert s2.templateState == TemplateState(Some(t), [] + [TemplateParameter(p, ParamTypeOf(ty))]);
  }

  /** Closing a `<param>` tag changes neither the resources nor the
      template being collected. */
  lemma {:induction false} ParamEnd(s2: ParserState, res: Resources, h: Handlers)
    requires !s2.inArray
    ensures var s3 := HandleEnd(s2, "param", res, h);
            s3.1 == res && s3.0.templateState == s2.templateState && s3.0.currentName == s2.currentName
            && s3.0.inTemplate == s2.inTemplate && !s3.0.inArray && s3.0.namespaceStack == s2.namespaceStack
  {
  }

  /** `<item>text</item>` inside an array adds the trimmed text to the
      items and changes nothing else that matters. */
  lemma {:induction false} ItemElement(st: ParserState, res: Resources, x: string, h: Handlers)
    requires st.inArray && !st.inTemplate && Trim(x) != []
    ensures var evs := [Start("item", []), Text(x), End("item")];
            var s := Final(st, res, evs, h).0;
            !HasError(evs) && Final(st, res, evs, h).1 == res
            && s.arrayItems == st.arrayItems + [Trim(x)] && s.inArray && !s.inTemplate
            && s.currentName == st.currentName && s.namespaceStack == st.namespaceStack && s.templateState == st.templateState
  {
    FinalThree(st, res, Start("item", []), Text(x), End("item"), h);
    var s1 := HandleStart(st, "item", [], h.naming);
    assert s1.currentTag == "item" && s1.inArray && s1.arrayItems == st.arrayItems;
  }

  /** The items of an array are handed to the array handler, in order,
      when the array ends. */
  lemma {:induction false} ArrayItems(st: ParserState, res: Resources, ty: string, n: string, a: string, b: string, h: Handlers)
    requires AtTop(st) && Trim(a) != [] && Trim(b) != []
    requires EndsWith(ty, "-array") && ty != "ns" && ty != "string"
    ensures var evs := [Start(ty, [("name", n)])] + [Start("item", []), Text(a), End("item")]
                       + [Start("item", []), Text(b), End("item")] + [End(ty)];
            !HasError(evs)
            && Final(st, res, evs, h).1 == h.arrayEnd(ty, n, [Trim(a), Trim(b)], res)
            && AtTop(Final(st, res, evs, h).0)
  {
    var open := [Start(ty, [("name", n)])];
    var ia := [Start("item", []), Text(a), End("item")];
    var ib := [Start("item", []), Text(b), End("item")];
    var close := [End(ty)];
    ArrayOpen(st, res, ty, n, h);
    var s1 := Final(st, res, open, h).0;
    ItemElement(s1, res, a, h);
    var s2 := Final(s1, res, ia, h).0;
    ItemElement(s2, res, b, h);
    var s3 := Final(s2, res, ib, h).0;
    assert [] + [Trim(a)] + [Trim(b)] == [Trim(a), Trim(b)];
    ArrayEnd(s3, res, ty, h);
    FinalAppend(st, res, open, ia, h);
    FinalAppend(st, res, open + ia, ib, h);
    FinalAppend(st, res, open + ia + ib, close, h);
  }

  /** The start tag of an array begins an empty list of items under the
      array's name. */
  lemma {:induction false} ArrayOpen(st: ParserState, res: Resources, ty: string, n: string, h: Handlers)
    requires AtTop(st) && EndsWith(ty, "-array") && ty != "ns" && ty != "string"
    ensures !HasError([Start(ty, [("name", n)])])
    ensures var (s1, r1) := Final(st, res, [Start(ty, [("name", n)])], h);
            r1 == res && s1.currentName == n && s1.inArray && s1.arrayItems == [] && !s1.inTemplate
            && s1.namespaceStack == [] && s1.templateState == NewState
  {
    var open := [Start(ty, [("name", n)])];
    assert !HasError(open);
    OneAttr("name", n, "name");
    OneAttr("name", n, "template");
    var s1 := HandleStart(st, ty, [("name", n)], h.naming);
    assert s1.currentName == n && s1.inArray && s1.arrayItems == [] && !s1.inTemplate;
    FinalStep(st, res, open, h);
    assert open[1..] == [];
  }

  lemma {:induction false} ArrayEnd(st: ParserState, res: Resources, ty: string, h: Handlers)
    requires st.inArray && !st.inTemplate && st.namespaceStack == [] && st.templateState == NewState
    requires EndsWith(ty, "-array") && ty != "ns" && ty != "string"
    ensures !HasError([End(ty)])
    ensures Final(st, res, [End(ty)], h).1 == h.arrayEnd(ty, st.currentName, st.arrayItems, res)
    ensures AtTop(Final(st, res, [End(ty)], h).0)
  {
    assert !HasError([End(ty)]);
    FinalStep(st, res, [End(ty)], h);
    assert [End(ty)][1..] == [];
  }
}

