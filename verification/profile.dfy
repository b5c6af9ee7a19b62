/** The profile filter (generator/input/loader/profile.rs): before a
    resource file is parsed, every element whose `profile` attribute names
    another profile is removed together with its whole subtree, and the
    remaining events are written back out as XML text. */
module Profile {
  import opened Wrappers
  import opened Xml

  /** The value of the first `profile` attribute. */
  function ProfileAttr(attrs: Attrs): Option<string> {
    AttrValue(attrs, "profile")
  }

  /** An element is for this build when it names no profile or the
      current one. */
  predicate ForProfile(attrs: Attrs, profile: string) {
    ProfileAttr(attrs).None? || ProfileAttr(attrs).value == profile
  }

  // ---------------------------------------------------------------------
  // Serialisation

  /** ` k="v"` for each attribute, in order. */
  function AttrText(attrs: Attrs): (r: string)
    ensures |attrs| == 0 <==> r == []
    ensures |attrs| > 0 ==> r[0] == ' '
  {
    if |attrs| == 0 then []
    else " " + attrs[0].0 + "=\"" + attrs[0].1 + "\"" + AttrText(attrs[1..])
  }

  /** `write_start_tag`. */
  function StartTag(name: string, attrs: Attrs): string {
    "<" + name + AttrText(attrs) + ">"
  }

  /** `write_empty_tag`. */
  function EmptyTag(name: string, attrs: Attrs): string {
    "<" + name + AttrText(attrs) + "/>"
  }

  /** `write_end_tag`. */
  function EndTag(name: string): string {
    "</" + name + ">"
  }

  // ---------------------------------------------------------------------
  // The filter as a fold over events

  /** The loop's state: how deep inside a removed subtree it is (0 when
      not removing) and the text written so far. */
  datatype Filter = Filter(depth: nat, out: string)

  /** One event: the four `handle_*_event` functions, and nothing for the
      ignored kinds (comments, declarations, CDATA, processing
      instructions, doctype, general references). */
  function Step(f: Filter, profile: string, e: Event): Filter
    requires !e.Error?
  {
    match e
    case Start(name, attrs) =>
      var depth := if f.depth > 0 then f.depth + 1
                   else if ForProfile(attrs, profile) then 0
                   else 1;
      Filter(depth, if depth == 0 then f.out + StartTag(name, attrs) else f.out)
    case Empty(name, attrs) =>
      if f.depth == 0 && ForProfile(attrs, profile) then Filter(0, f.out + EmptyTag(name, attrs)) else f
    case Text(t) =>
      if f.depth == 0 then Filter(0, f.out + t) else f
    case End(name) =>
      if f.depth > 0 then Filter(f.depth - 1, f.out) else Filter(0, f.out + EndTag(name))
    case Other => f
  }

  /** The event loop: the final state, or None at the first tokenizer
      error. */
  function Run(f: Filter, profile: string, evs: seq<Event>): Option<Filter>
    decreases |evs|
  {
    if |evs| == 0 then Some(f)
    else if evs[0].Error? then None
    else Run(Step(f, profile, evs[0]), profile, evs[1..])
  }

  /** `preprocess_xml`: the filtered text, or the original text when the
      tokenizer reports an error. */
  function Preprocess(xml: string, evs: seq<Event>, profile: string): (r: string)
    ensures HasError(evs) ==> r == xml
    ensures !HasError(evs) ==> Run(Filter(0, []), profile, evs).Some? && r == Run(Filter(0, []), profile, evs).value.out
  {
    RunError(Filter(0, []), profile, evs);
    match Run(Filter(0, []), profile, evs)
    case None => xml
    case Some(f) => f.out
  }

  /** The loop stops exactly when the events hold an error. */
  lemma {:induction false} RunError(f: Filter, profile: string, evs: seq<Event>)
    ensures Run(f, profile, evs).None? <==> HasError(evs)
    decreases |evs|
  {
    if |evs| > 0 && !evs[0].Error? {
      RunError(Step(f, profile, evs[0]), profile, evs[1..]);
      forall i | 0 <= i < |evs[1..]| ensures evs[1..][i] == evs[i + 1] {}
      assert HasError(evs) ==> HasError(evs[1..]) by {
        forall i | 0 <= i < |evs| && evs[i].Error? ensures 1 <= i {}
      }
    }
  }

  /** Output is only ever appended to: whatever has been written stays a
      prefix of the final text. */
  lemma {:induction false} OutputGrows(f: Filter, profile: string, evs: seq<Event>)
    requires Run(f, profile, evs).Some?
    ensures f.out <= Run(f, profile, evs).value.out
    decreases |evs|
  {
    if |evs| > 0 {
      var g := Step(f, profile, evs[0]);
      assert f.out <= g.out;
      OutputGrows(g, profile, evs[1..]);
    }
  }

  // ---------------------------------------------------------------------
  // Composing runs

  lemma {:induction false} RunSingle(f: Filter, profile: string, e: Event)
    requires !e.Error?
    ensures Run(f, profile, [e]) == Some(Step(f, profile, e))
  {
    assert [e][1..] == [];
  }

  lemma {:induction false} RunThen(f: Filter, profile: string, a: seq<Event>, b: seq<Event>)
    requires Run(f, profile, a).Some?
    ensures Run(f, profile, a + b) == Run(Run(f, profile, a).value, profile, b)
    decreases |a|
  {
    if |a| == 0 {
      assert a + b == b;
    } else {
      assert (a + b)[0] == a[0];
      assert (a + b)[1..] == a[1..] + b;
      RunThen(Step(f, profile, a[0]), profile, a[1..], b);
    }
  }

  /** An element run in three parts: its start, its children, its end. */
  lemma {:induction false} ElementRun(f: Filter, profile: string, t: string, a: Attrs, ch: seq<Event>, g1: Filter, g2: Filter)
    requires Run(Step(f, profile, Start(t, a)), profile, ch) == Some(g1)
    requires Step(g1, profile, End(t)) == g2
    ensures Run(f, profile, [Start(t, a)] + ch + [End(t)]) == Some(g2)
  {
    RunSingle(f, profile, Start(t, a));
    RunThen(f, profile, [Start(t, a)], ch);
    RunThen(f, profile, [Start(t, a)] + ch, [End(t)]);
    RunSingle(g1, profile, End(t));
  }

  /** A node in front of the rest of a node sequence. */
  lemma {:induction false} NodesRun(f: Filter, profile: string, nodes: seq<Node>, g1: Filter)
    requires |nodes| > 0
    requires Run(f, profile, Flatten([nodes[0]])) == Some(g1)
    ensures Run(f, profile, Flatten(nodes)) == Run(g1, profile, Flatten(nodes[1..]))
  {
    assert nodes == [nodes[0]] + nodes[1..];
    FlattenAppend([nodes[0]], nodes[1..]);
    RunThen(f, profile, Flatten([nodes[0]]), Flatten(nodes[1..]));
  }

  lemma {:induction false} FlattenOne(n: Node)
    ensures Flatten([n]) ==
            match n
            case Element(t, a, ch) => [Start(t, a)] + Flatten(ch) + [End(t)]
            case EmptyElement(t, a) => [Empty(t, a)]
            case TextNode(c) => [Text(c)]
            case OtherNode => [Other]
  {
    assert [n][1..] == [];
  }

  // ---------------------------------------------------------------------
  // The filter on well-nested documents

  /** What the filter keeps of a well-nested document: elements for this
      profile with their filtered children, self-closing elements for this
      profile, and text; other markup is dropped. */
  function FilterTree(nodes: seq<Node>, profile: string): seq<Node>
    decreases nodes
  {
    if |nodes| == 0 then []
    else
      var head :=
        match nodes[0]
        case Element(t, a, ch) =>
          if ForProfile(a, profile) then [Element(t, a, FilterTree(ch, profile))] else []
        case EmptyElement(t, a) => if ForProfile(a, profile) then [nodes[0]] else []
        case TextNode(_) => [nodes[0]]
        case OtherNode => [];
      head + FilterTree(nodes[1..], profile)
  }

  /** The XML text of a node sequence as the filter writes it. */
  function Serialize(nodes: seq<Node>): string
    decreases nodes
  {
    if |nodes| == 0 then []
    else
      var head :=
        match nodes[0]
        case Element(t, a, ch) => StartTag(t, a) + Serialize(ch) + EndTag(t)
        case EmptyElement(t, a) => EmptyTag(t, a)
        case TextNode(c) => c
        case OtherNode => [];
      head + Serialize(nodes[1..])
  }

  /** Inside a removed subtree nothing is written, whatever the nested
      elements' profiles, and the depth comes back to where it was. */
  lemma {:induction false} SkipInside(d: nat, out: string, profile: string, nodes: seq<Node>)
    requires d > 0
    ensures Run(Filter(d, out), profile, Flatten(nodes)) == Some(Filter(d, out))
    decreases nodes
  {
    var f := Filter(d, out);
    if |nodes| == 0 {
      assert Flatten(nodes) == [];
    } else {
      SkipInside(d, out, profile, nodes[1..]);
      FlattenOne(nodes[0]);
      match nodes[0]
      case Element(t, a, ch) =>
        SkipInside(d + 1, out, profile, ch);
        ElementRun(f, profile, t, a, Flatten(ch), Filter(d + 1, out), f);
        NodesRun(f, profile, nodes, f);
      case EmptyElement(t, a) =>
        RunSingle(f, profile, Empty(t, a));
        NodesRun(f, profile, nodes, f);
      case TextNode(c) =>
        RunSingle(f, profile, Text(c));
        NodesRun(f, profile, nodes, f);
      case OtherNode =>
        RunSingle(f, profile, Other);
        NodesRun(f, profile, nodes, f);
    }
  }

  /** On a well-nested document the filter writes exactly the serialised
      filtered tree, and ends outside any removed subtree. */
  lemma {:induction false} FilterMatchesTree(out: string, profile: string, nodes: seq<Node>)
    ensures Run(Filter(0, out), profile, Flatten(nodes)) == Some(Filter(0, out + Serialize(FilterTree(nodes, profile))))
    decreases nodes
  {
    var f := Filter(0, out);
    if |nodes| == 0 {
      assert Flatten(nodes) == [];
      assert out + Serialize(FilterTree(nodes, profile)) == out;
    } else {
      var rest := nodes[1..];
      FlattenOne(nodes[0]);
      var g1 := HeadRun(out, profile, nodes[0]);
      FilterMatchesTree(g1.out, profile, rest);
      NodesRun(f, profile, nodes, g1);
      SerializeFilterCons(out, profile, nodes);
    }
  }

  /** The effect of one node at depth 0. */
  lemma {:induction false} HeadRun(out: string, profile: string, n: Node) returns (g: Filter)
    ensures g.depth == 0
    ensures g.out == out + Serialize(FilterTree([n], profile))
    ensures Run(Filter(0, out), profile, Flatten([n])) == Some(g)
    decreases n, 1
  {
    var f := Filter(0, out);
    FlattenOne(n);
    assert [n][1..] == [];
    match n
    case Element(t, a, ch) =>
      if ForProfile(a, profile) {
        var s := Step(f, profile, Start(t, a));
        assert s == Filter(0, out + StartTag(t, a));
        FilterMatchesTree(s.out, profile, ch);
        var g1 := Filter(0, s.out + Serialize(FilterTree(ch, profile)));
        g := Filter(0, g1.out + EndTag(t));
        ElementRun(f, profile, t, a, Flatten(ch), g1, g);
        KeptElementText(out, t, a, profile, ch);
      } else {
        SkipInside(1, out, profile, ch);
        g := f;
        ElementRun(f, profile, t, a, Flatten(ch), Filter(1, out), f);
        assert FilterTree([n], profile) == [];
      }
    case EmptyElement(t, a) =>
      g := Step(f, profile, Empty(t, a));
      RunSingle(f, profile, Empty(t, a));
      assert Serialize([n]) == EmptyTag(t, a);
    case TextNode(c) =>
      g := Step(f, profile, Text(c));
      RunSingle(f, profile, Text(c));
      assert Serialize([n]) == c;
    case OtherNode =>
      g := f;
      RunSingle(f, profile, Other);
      assert out + Serialize(FilterTree([n], profile)) == out;
  }

  lemma {:induction false} KeptElementText(out: string, t: string, a: Attrs, profile: string, ch: seq<Node>)
    requires ForProfile(a, profile)
    ensures out + Serialize(FilterTree([Element(t, a, ch)], profile))
            == out + StartTag(t, a) + Serialize(FilterTree(ch, profile)) + EndTag(t)
  {
    var n := Element(t, a, ch);
    assert [n][1..] == [];
    assert FilterTree([n], profile) == [Element(t, a, FilterTree(ch, profile))];
    var m := Element(t, a, FilterTree(ch, profile));
    assert [m][1..] == [];
    assert Serialize([m]) == StartTag(t, a) + Serialize(FilterTree(ch, profile)) + EndTag(t);
  }

  /** Filtering and serialising distribute over the first node. */
  lemma {:induction false} SerializeFilterCons(out: string, profile: string, nodes: seq<Node>)
    requires |nodes| > 0
    ensures out + Serialize(FilterTree(nodes, profile))
            == out + Serialize(FilterTree([nodes[0]], profile)) + Serialize(FilterTree(nodes[1..], profile))
  {
    FilterTreeCons(nodes, profile);
    SerializeAppend(FilterTree([nodes[0]], profile), FilterTree(nodes[1..], profile));
  }

  lemma {:induction false} FilterTreeCons(nodes: seq<Node>, profile: string)
    requires |nodes| > 0
    ensures FilterTree(nodes, profile) == FilterTree([nodes[0]], profile) + FilterTree(nodes[1..], profile)
  {
    var one := [nodes[0]];
    assert one[1..] == [];
    assert FilterTree(one[1..], profile) == [];
  }

  lemma {:induction false} SerializeAppend(a: seq<Node>, b: seq<Node>)
    ensures Serialize(a + b) == Serialize(a) + Serialize(b)
    decreases |a|
  {
    if |a| == 0 {
      assert a + b == b;
    } else {
      assert (a + b)[0] == a[0];
      assert (a + b)[1..] == a[1..] + b;
      SerializeAppend(a[1..], b);
    }
  }

  /** For a well-nested document without errors, preprocessing gives the
      serialised filtered tree. */
  lemma {:induction false} PreprocessDocument(xml: string, nodes: seq<Node>, profile: string)
    ensures Preprocess(xml, Flatten(nodes), profile) == Serialize(FilterTree(nodes, profile))
  {
    FlattenNoError(nodes);
    FilterMatchesTree([], profile, nodes);
    assert [] + Serialize(FilterTree(nodes, profile)) == Serialize(FilterTree(nodes, profile));
  }

  /** An element for another profile is removed with everything inside it,
      and the filter is outside any removed subtree right after its end. */
  lemma {:induction false} SkippedElement(out: string, profile: string, t: string, a: Attrs, ch: seq<Node>)
    requires ProfileAttr(a).Some? && ProfileAttr(a).value != profile
    ensures Run(Filter(0, out), profile, Flatten([Element(t, a, ch)])) == Some(Filter(0, out))
  {
    var g := HeadRun(out, profile, Element(t, a, ch));
    assert [Element(t, a, ch)][1..] == [];
    assert FilterTree([Element(t, a, ch)], profile) == [];
    assert out + Serialize([]) == out;
  }

  /** A self-closing element is written exactly when it is for this
      profile and not inside a removed subtree. */
  lemma {:induction false} EmptyElementKept(f: Filter, profile: string, t: string, a: Attrs)
    ensures Step(f, profile, Empty(t, a)).out == f.out + EmptyTag(t, a) <==> f.depth == 0 && ForProfile(a, profile)
    ensures Step(f, profile, Empty(t, a)).depth == f.depth
  {
    if f.depth == 0 && ForProfile(a, profile) {
    } else {
      assert |f.out + EmptyTag(t, a)| > |f.out|;
    }
  }
}
