/** The resource reader (generator/parsing/reader/): a state machine over
    XML events that tracks the enclosing `<ns>` elements and the value
    element being read, and turns each value element's text into a parsed
    resource. */
module Reader {
  import opened Wrappers
  import opened Text
  import opened Model
  import opened Xml
  import Ast

  /** `ParseState`. The template fields of the source's state are never
      read or written by the handlers and are left out. */
  datatype ParseState = ParseState(
    currentTag: string,
    currentName: Option<string>,
    namespaceStack: seq<string>,
    currentNumberType: Option<string>)

  const Initial: ParseState := ParseState("", None, [], None)

  predicate IsNumberTag(tag: string) {
    tag == "number" || tag == "int" || tag == "float"
  }

  predicate IsValueTag(tag: string) {
    tag == "string" || IsNumberTag(tag) || tag == "bool" || tag == "color"
  }

  /** The path of a value named `name` inside the namespaces `stack`: the
      stack joined with '/' then "/name", or the bare name. */
  function Qualify(stack: seq<string>, name: string): (r: string)
    ensures r == FullName(ResourceKey(stack, name))
  {
    if |stack| == 0 then name else Join(stack, "/") + "/" + name
  }

  /** `handle_start`, also used for self-closing elements. */
  function HandleStart(st: ParseState, tag: string, attrs: Attrs): (r: ParseState)
    ensures r.currentTag == tag
    ensures tag == "ns" ==> r.currentName.None? && r.currentNumberType == st.currentNumberType
    ensures tag == "ns" ==>
              r.namespaceStack == st.namespaceStack + (if AttrValue(attrs, "name").Some? then [AttrValue(attrs, "name").value] else [])
    ensures tag != "ns" ==> r.namespaceStack == st.namespaceStack
    ensures tag != "ns" ==> r.currentNumberType == (if IsNumberTag(tag) then AttrValue(attrs, "type") else None)
    ensures tag != "ns" && AttrValue(attrs, "name").Some? ==>
              r.currentName == Some(FullName(ResourceKey(st.namespaceStack, AttrValue(attrs, "name").value)))
    ensures tag != "ns" && AttrValue(attrs, "name").None? ==> r.currentName == st.currentName
  {
    if tag == "ns" then
      var stack := match AttrValue(attrs, "name")
        case Some(n) => st.namespaceStack + [n]
        case None => st.namespaceStack;
      st.(currentTag := tag, namespaceStack := stack, currentName := None)
    else
      var numberType := if IsNumberTag(tag) then AttrValue(attrs, "type") else None;
      var name := match AttrValue(attrs, "name")
        case Some(n) => Some(Qualify(st.namespaceStack, n))
        case None => st.currentName;
      st.(currentTag := tag, currentNumberType := numberType, currentName := name)
  }

  /** Rust's `str::parse::<bool>`. */
  function ParseBool(s: string): Option<bool> {
    if s == "true" then Some(true) else if s == "false" then Some(false) else None
  }

  /** `handle_text`: the trimmed text of the value element being read, as a
      resource of the element's kind. */
  function HandleText(st: ParseState, text: string): (r: Option<Ast.ParsedResource>)
    ensures r.Some? ==> st.currentName.Some? && Trim(text) != []
                        && r.value.name == st.currentName.value
    ensures st.currentName.Some? && Trim(text) != [] && st.currentTag == "string" ==>
              r == Some(Ast.StringResource(st.currentName.value, Trim(text)))
    ensures st.currentName.Some? && Trim(text) != [] && IsNumberTag(st.currentTag) ==>
              r == Some(Ast.NumberResource(st.currentName.value, Trim(text), st.currentNumberType))
    ensures st.currentName.Some? && Trim(text) != [] && st.currentTag == "bool" ==>
              (r.Some? <==> Trim(text) == "true" || Trim(text) == "false")
              && (r.Some? ==> r.value == Ast.BoolResource(st.currentName.value, Trim(text) == "true"))
    ensures st.currentName.Some? && Trim(text) != [] && st.currentTag == "color" ==>
              r == Some(Ast.ParsedResource(st.currentName.value, Ast.ColorKind, Ast.Color(Trim(text))))
    ensures !IsValueTag(st.currentTag) ==> r.None?
  {
    match st.currentName
    case None => None
    case Some(name) =>
      var trimmed := Trim(text);
      if trimmed == [] then None
      else if st.currentTag == "string" then Some(Ast.StringResource(name, trimmed))
      else if IsNumberTag(st.currentTag) then Some(Ast.NumberResource(name, trimmed, st.currentNumberType))
      else if st.currentTag == "bool" then
        match ParseBool(trimmed)
        case Some(b) => Some(Ast.BoolResource(name, b))
        case None => None
      else if st.currentTag == "color" then Some(Ast.ParsedResource(name, Ast.ColorKind, Ast.Color(trimmed)))
      else None
  }

  /** `handle_end`: leaves a namespace or a value element; the tag being
      read is cleared in every case. */
  function HandleEnd(st: ParseState, tag: string): (r: ParseState)
    ensures r.currentTag == ""
    ensures tag == "ns" && |st.namespaceStack| > 0 ==> r.namespaceStack == st.namespaceStack[..|st.namespaceStack| - 1]
    ensures tag != "ns" || |st.namespaceStack| == 0 ==> r.namespaceStack == st.namespaceStack
    ensures r.currentName == (if IsValueTag(tag) then None else st.currentName)
    ensures r.currentNumberType == (if IsNumberTag(tag) then None else st.currentNumberType)
  {
    var stack := if tag == "ns" && |st.namespaceStack| > 0 then st.namespaceStack[..|st.namespaceStack| - 1]
                 else st.namespaceStack;
    var name := if IsValueTag(tag) then None else st.currentName;
    var numberType := if IsNumberTag(tag) then None else st.currentNumberType;
    ParseState("", name, stack, numberType)
  }

  /** One turn of the event loop: the next state and the resource the
      event yields, if any. Ends yield nothing. */
  function Step(st: ParseState, e: Event): (ParseState, Option<Ast.ParsedResource>)
    requires !e.Error?
  {
    match e
    case Start(tag, attrs) => (HandleStart(st, tag, attrs), None)
    case Empty(tag, attrs) => (HandleStart(st, tag, attrs), None)
    case Text(t) => (st, HandleText(st, t))
    case End(tag) => (HandleEnd(st, tag), None)
    case Other => (st, None)
  }

  datatype ParserError = XmlError(path: string, message: string)

  /** The message of a tokenizer error. */
  function ErrorMessage(position: nat, message: string): string {
    "XML error at byte " + NatToString(position) + ": " + message
  }

  /** The event loop from state `st`: the resources in event order, or the
      first tokenizer error. */
  function Run(st: ParseState, evs: seq<Event>): Result<seq<Ast.ParsedResource>, (nat, string)>
    decreases |evs|
  {
    if |evs| == 0 then Ok([])
    else if evs[0].Error? then Err((evs[0].position, evs[0].message))
    else
      var (st', out) := Step(st, evs[0]);
      match Run(st', evs[1..])
      case Err(e) => Err(e)
      case Ok(rest) => Ok(Emitted(out) + rest)
  }

  function Emitted(out: Option<Ast.ParsedResource>): seq<Ast.ParsedResource> {
    if out.Some? then [out.value] else []
  }

  /** One event in front of the rest. */
  lemma {:induction false} RunCons(st: ParseState, e: Event, rest: seq<Event>)
    requires !e.Error?
    ensures Run(st, [e] + rest).Ok? == Run(Step(st, e).0, rest).Ok?
    ensures Run(st, [e] + rest).Ok? ==> Run(st, [e] + rest).value == Emitted(Step(st, e).1) + Run(Step(st, e).0, rest).value
  {
    assert ([e] + rest)[1..] == rest;
  }

  /** A resource file before parsing: its path, its test flag and its
      content as tokenizer events. */
  datatype RawResourceFile = RawResourceFile(path: string, events: seq<Event>, isTest: bool)

  /** `parse_single_file`. */
  function ParseSingleFile(raw: RawResourceFile): (r: Result<Ast.ParsedResourceFile, ParserError>)
    ensures r.Ok? ==> r.value.path == raw.path && r.value.isTest == raw.isTest
    ensures r.Err? ==> r.error.path == raw.path
  {
    match Run(Initial, raw.events)
    case Ok(resources) => Ok(Ast.ParsedResourceFile(raw.path, raw.isTest, resources))
    case Err((pos, msg)) => Err(XmlError(raw.path, ErrorMessage(pos, msg)))
  }

  /** The index of the first error event. */
  function FirstError(evs: seq<Event>): (r: Option<nat>)
    ensures r.None? <==> !HasError(evs)
    ensures r.Some? ==> r.value < |evs| && evs[r.value].Error? && forall j :: 0 <= j < r.value ==> !evs[j].Error?
  {
    if |evs| == 0 then None
    else if evs[0].Error? then Some(0)
    else
      match FirstError(evs[1..])
      case None => None
      case Some(i) => Some(i + 1)
  }

  /** The loop fails exactly when the events hold an error, and then with
      the first one. */
  lemma {:induction false} RunError(st: ParseState, evs: seq<Event>)
    ensures Run(st, evs).Err? <==> HasError(evs)
    ensures Run(st, evs).Err? ==>
              Run(st, evs).error == (evs[FirstError(evs).value].position, evs[FirstError(evs).value].message)
    decreases |evs|
  {
    if |evs| > 0 && !evs[0].Error? {
      RunError(Step(st, evs[0]).0, evs[1..]);
      assert HasError(evs) <==> HasError(evs[1..]) by {
        if HasError(evs) {
          var i :| 0 <= i < |evs| && evs[i].Error?;
          assert evs[1..][i - 1].Error?;
        }
        if HasError(evs[1..]) {
          var i :| 0 <= i < |evs[1..]| && evs[1..][i].Error?;
          assert evs[i + 1].Error?;
        }
      }
    }
  }

  /** The resources of an error-free run: those of a prefix, then those of
      the rest from the state the prefix leaves. */
  function FinalState(st: ParseState, evs: seq<Event>): ParseState
    requires !HasError(evs)
    decreases |evs|
  {
    if |evs| == 0 then st
    else FinalState(Step(st, evs[0]).0, evs[1..])
  }

  lemma {:induction false} RunAppend(st: ParseState, a: seq<Event>, b: seq<Event>)
    requires !HasError(a) && !HasError(b)
    ensures Run(st, a + b).Ok? && Run(st, a).Ok? && Run(FinalState(st, a), b).Ok?
    ensures Run(st, a + b).value == Run(st, a).value + Run(FinalState(st, a), b).value
    decreases |a|, 1
  {
    if |a| == 0 {
      assert a + b == b;
      RunOk(st, b);
    } else {
      RunAppendCons(st, a, b);
    }
  }

  lemma {:induction false} RunOk(st: ParseState, evs: seq<Event>)
    requires !HasError(evs)
    ensures Run(st, evs).Ok?
  {
    RunError(st, evs);
  }

  /** The inductive step of `RunAppend`: the first event, then the rest. */
  lemma {:induction false} RunAppendCons(st: ParseState, a: seq<Event>, b: seq<Event>)
    requires |a| > 0 && !HasError(a) && !HasError(b)
    ensures Run(st, a + b).Ok? && Run(st, a).Ok? && Run(FinalState(st, a), b).Ok?
    ensures Run(st, a + b).value == Run(st, a).value + Run(FinalState(st, a), b).value
    decreases |a|, 0
  {
    var e := a[0];
    assert !e.Error?;
    var st' := Step(st, e).0;
    var o := Emitted(Step(st, e).1);
    NoErrorTail(a);
    RunAppend(st', a[1..], b);
    var x := Run(st', a[1..]).value;
    var y := Run(FinalState(st', a[1..]), b).value;
    assert FinalState(st, a) == FinalState(st', a[1..]);
    HeadTailAppend(a, b);
    assert Run(st, a).Ok? && Run(st, a).value == o + x;
    assert Run(st, a + b).Ok? && Run(st, a + b).value == o + (x + y);
    AppendAssoc(o, x, y);
  }

  lemma {:induction false} HeadTailAppend<T>(a: seq<T>, b: seq<T>)
    requires |a| > 0
    ensures (a + b)[0] == a[0] && (a + b)[1..] == a[1..] + b
  {
  }

  lemma {:induction false} AppendAssoc<T>(o: seq<T>, x: seq<T>, y: seq<T>)
    ensures o + (x + y) == (o + x) + y
  {
  }

  // ---------------------------------------------------------------------
  // Namespaces

  /** The elements of a well-nested document leave the namespace stack
      as they found it, provided every `<ns>` start carries a name and no
      end event is for a different tag than its start. */
  lemma {:induction false} BalancedKeepsStack(st: ParseState, nodes: seq<Node>)
    requires NamedNamespaces(nodes)
    ensures !HasError(Flatten(nodes))
    ensures FinalState(st, Flatten(nodes)).namespaceStack == st.namespaceStack
    decreases nodes
  {
    FlattenNoError(nodes);
    if |nodes| > 0 {
      var rest := nodes[1..];
      FlattenNoError(rest);
      match nodes[0]
      case Element(t, a, ch) =>
        var s1 := HandleStart(st, t, a);
        FlattenNoError(ch);
        BalancedKeepsStack(s1, ch);
        var s2 := FinalState(s1, Flatten(ch));
        var s3 := HandleEnd(s2, t);
        BalancedKeepsStack(s3, rest);
        var evs := [Start(t, a)] + Flatten(ch) + [End(t)];
        assert Flatten(nodes) == evs + Flatten(rest);
        FinalStateAppend(st, evs, Flatten(rest));
        FinalStateAppend(st, [Start(t, a)], Flatten(ch));
        FinalStateAppend(st, [Start(t, a)] + Flatten(ch), [End(t)]);
      case EmptyElement(t, a) =>
        BalancedKeepsStack(HandleStart(st, t, a), rest);
        FinalStateAppend(st, [Empty(t, a)], Flatten(rest));
      case TextNode(c) =>
        BalancedKeepsStack(st, rest);
        FinalStateAppend(st, [Text(c)], Flatten(rest));
      case OtherNode =>
        BalancedKeepsStack(st, rest);
        FinalStateAppend(st, [Other], Flatten(rest));
    }
  }

  /** Every `<ns>` element, at any depth, has a name attribute, and no
      self-closing element is an `ns`. */
  predicate NamedNamespaces(nodes: seq<Node>)
    decreases nodes
  {
    forall i :: 0 <= i < |nodes| ==>
      match nodes[i]
      case Element(t, a, ch) => (t == "ns" ==> AttrValue(a, "name").Some?) && NamedNamespaces(ch)
      case EmptyElement(t, _) => t != "ns"
      case _ => true
  }

  lemma {:induction false} FinalStateAppend(st: ParseState, a: seq<Event>, b: seq<Event>)
    requires !HasError(a) && !HasError(b)
    ensures !HasError(a + b)
    ensures FinalState(st, a + b) == FinalState(FinalState(st, a), b)
    decreases |a|
  {
    if |a| == 0 {
      assert a + b == b;
    } else {
      assert (a + b)[1..] == a[1..] + b;
      NoErrorTail(a);
      FinalStateAppend(Step(st, a[0]).0, a[1..], b);
      NoErrorAppend(a, b);
    }
  }

  // ---------------------------------------------------------------------
  // Worked examples

  /** A value element holding one text: what its text yields and
      nothing else. */
  lemma {:induction false} ValueElement(st: ParseState, tag: string, attrs: Attrs, text: string)
    ensures Run(st, [Start(tag, attrs), Text(text), End(tag)]).Ok?
    ensures Run(st, [Start(tag, attrs), Text(text), End(tag)]).value
            == Emitted(HandleText(HandleStart(st, tag, attrs), text))
  {
    var s1 := HandleStart(st, tag, attrs);
    var s2 := HandleEnd(s1, tag);
    var t0: seq<Event> := [];
    var t1 := [End(tag)] + t0;
    RunCons(s1, End(tag), t0);
    var t2 := [Text(text)] + t1;
    RunCons(s1, Text(text), t1);
    var t3 := [Start(tag, attrs)] + t2;
    RunCons(st, Start(tag, attrs), t2);
    assert t3 == [Start(tag, attrs), Text(text), End(tag)];
  }

  /** `<ns name="ns"><string name="n">text</string></ns>` read from the
      start of a document gives the one string resource "ns/n" holding the
      trimmed text. */
  lemma {:induction false} NamespacedStringElement(ns: string, n: string, text: string)
    requires Trim(text) != []
    ensures var evs := [Start("ns", [("name", ns)])] + [Start("string", [("name", n)]), Text(text), End("string")]
                       + [End("ns")];
            Run(Initial, evs) == Ok([Ast.StringResource(ns + "/" + n, Trim(text))])
  {
    var a := [Start("ns", [("name", ns)])];
    var v := [Start("string", [("name", n)]), Text(text), End("string")];
    var c := [End("ns")];
    var s1 := HandleStart(Initial, "ns", [("name", ns)]);
    InsideNamespace(ns, n, text);
    ValueElement(s1, "string", [("name", n)], text);
    Wrapped(Initial, a, v, c);
  }

  lemma {:induction false} InsideNamespace(ns: string, n: string, text: string)
    requires Trim(text) != []
    ensures HandleText(HandleStart(HandleStart(Initial, "ns", [("name", ns)]), "string", [("name", n)]), text)
            == Some(Ast.StringResource(ns + "/" + n, Trim(text)))
  {
    var s1 := HandleStart(Initial, "ns", [("name", ns)]);
    assert s1.namespaceStack == [ns];
    assert Join([ns], "/") == ns;
  }

  /** Events around a middle part that yield nothing. */
  lemma {:induction false} Wrapped(st: ParseState, a: seq<Event>, v: seq<Event>, c: seq<Event>)
    requires |a| == 1 && !a[0].Error? && Step(st, a[0]).1.None?
    requires |c| == 1 && c[0].End?
    requires !HasError(v)
    ensures Run(st, a + v + c).Ok? && Run(Step(st, a[0]).0, v).Ok?
    ensures Run(st, a + v + c).value == Run(Step(st, a[0]).0, v).value
  {
    assert !HasError(a) && !HasError(c);
    NoErrorAppend(a, v);
    RunAppend(st, a + v, c);
    RunAppend(st, a, v);
    SingleQuiet(st, a);
    SingleQuiet(FinalState(st, a + v), c);
    var m := Run(Step(st, a[0]).0, v).value;
    assert Run(st, a + v).value == [] + m;
    assert Run(st, a + v + c).value == ([] + m) + [];
    assert ([] + m) + [] == m;
  }

  /** A single event that yields nothing. */
  lemma {:induction false} SingleQuiet(st: ParseState, a: seq<Event>)
    requires |a| == 1 && !a[0].Error? && Step(st, a[0]).1.None?
    ensures Run(st, a).Ok? && Run(st, a).value == [] && FinalState(st, a) == Step(st, a[0]).0
  {
    assert a[1..] == [];
    assert Run(Step(st, a[0]).0, a[1..]) == Ok([]);
    assert Run(st, a).Ok?;
    assert |Run(st, a).value| == 0;
  }

  /** A number element's `type` attribute travels with its text. */
  lemma {:induction false} ExplicitNumberType(st: ParseState, tag: string, attrs: Attrs, text: string)
    requires IsNumberTag(tag) && AttrValue(attrs, "name").Some? && Trim(text) != []
    ensures HandleText(HandleStart(st, tag, attrs), text)
            == Some(Ast.NumberResource(Qualify(st.namespaceStack, AttrValue(attrs, "name").value), Trim(text),
                                       AttrValue(attrs, "type")))
  {
  }

  /** A bool element whose text is neither "true" nor "false" yields
      nothing. */
  lemma {:induction false} BoolTextDropped(st: ParseState, text: string)
    requires st.currentTag == "bool" && Trim(text) != "true" && Trim(text) != "false"
    ensures HandleText(st, text).None?
  {
  }
}
