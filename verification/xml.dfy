/** The XML event stream both the reader and the profile filter consume.
    Tokenising text into events (quick_xml) is not part of this model: a
    document is given as the sequence of events the tokenizer would report,
    ending where it reports end-of-file or an error. */
module Xml {
  import opened Wrappers

  /** Attributes in document order. */
  type Attrs = seq<(string, string)>

  datatype Event =
    | Start(name: string, attrs: Attrs)
    | Empty(name: string, attrs: Attrs)
    | Text(text: string)
    | End(name: string)
      /** Comments, declarations, CDATA, processing instructions, doctype
          and general references. */
    | Other
      /** A tokenizer error at a byte position. */
    | Error(position: nat, message: string)

  /** The value of the first attribute named `key`. */
  function AttrValue(attrs: Attrs, key: string): (r: Option<string>)
    ensures r.None? <==> forall i :: 0 <= i < |attrs| ==> attrs[i].0 != key
    ensures r.Some? ==> exists i :: 0 <= i < |attrs| && attrs[i] == (key, r.value)
                                    && forall j :: 0 <= j < i ==> attrs[j].0 != key
  {
    if |attrs| == 0 then None
    else if attrs[0].0 == key then Some(attrs[0].1)
    else AttrValueShift(attrs, key); AttrValue(attrs[1..], key)
  }

  lemma {:induction false} AttrValueShift(attrs: Attrs, key: string)
    requires |attrs| > 0 && attrs[0].0 != key
    ensures forall i :: 1 <= i < |attrs| ==> attrs[i] == attrs[1..][i - 1]
  {
  }

  predicate HasError(evs: seq<Event>) {
    exists i :: 0 <= i < |evs| && evs[i].Error?
  }

  /** Error-free event sequences are closed under taking the tail and
      under concatenation. */
  lemma {:induction false} NoErrorTail(evs: seq<Event>)
    requires |evs| > 0 && !HasError(evs)
    ensures !HasError(evs[1..])
  {
    forall i | 0 <= i < |evs[1..]| ensures !evs[1..][i].Error? {
      assert evs[1..][i] == evs[i + 1];
    }
  }

  lemma {:induction false} NoErrorAppend(a: seq<Event>, b: seq<Event>)
    requires !HasError(a) && !HasError(b)
    ensures !HasError(a + b)
  {
    forall i | 0 <= i < |a + b| ensures !(a + b)[i].Error? {
      if i < |a| {
        assert (a + b)[i] == a[i];
      } else {
        assert (a + b)[i] == b[i - |a|];
      }
    }
  }

  // ---------------------------------------------------------------------
  // Well-nested documents

  /** An element tree; a document without errors whose tags nest is the
      flattening of a sequence of such nodes. */
  datatype Node =
    | Element(tag: string, attributes: Attrs, children: seq<Node>)
    | EmptyElement(emptyTag: string, emptyAttributes: Attrs)
    | TextNode(content: string)
    | OtherNode

  /** The events a sequence of nodes is read as. */
  function Flatten(nodes: seq<Node>): seq<Event>
    decreases nodes
  {
    if |nodes| == 0 then []
    else
      var head :=
        match nodes[0]
        case Element(t, a, ch) => [Start(t, a)] + Flatten(ch) + [End(t)]
        case EmptyElement(t, a) => [Empty(t, a)]
        case TextNode(c) => [Text(c)]
        case OtherNode => [Other];
      head + Flatten(nodes[1..])
  }

  /** A flattened document holds no error event. */
  lemma {:induction false} FlattenNoError(nodes: seq<Node>)
    ensures !HasError(Flatten(nodes))
    decreases nodes
  {
    if |nodes| > 0 {
      FlattenNoError(nodes[1..]);
      match nodes[0]
      case Element(t, a, ch) =>
        FlattenNoError(ch);
      case _ =>
    }
  }

  /** Flattening distributes over concatenation. */
  lemma {:induction false} FlattenAppend(a: seq<Node>, b: seq<Node>)
    ensures Flatten(a + b) == Flatten(a) + Flatten(b)
    decreases |a|
  {
    if |a| > 0 {
      assert (a + b)[0] == a[0];
      assert (a + b)[1..] == a[1..] + b;
      FlattenAppend(a[1..], b);
    } else {
      assert a + b == b;
    }
  }
}
