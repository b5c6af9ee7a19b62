/** Duplicate reporting (generator/analysis/mod.rs): one message for every
    key declared more than once, as a warning or, on request, as an
    error. */
module Analysis {
  import opened Wrappers
  import opened Text
  import opened Model
  import opened Graph

  /** `AnalysisWarning` and `AnalysisError` carry the same fields. */
  datatype Message = Message(message: string, key: Option<ResourceKey>)

  datatype AnalysisResult = AnalysisResult(warnings: seq<Message>, errors: seq<Message>)

  datatype ValidationOptions = ValidationOptions(treatDuplicatesAsErrors: bool)

  /** The files of the nodes, in declaration order. */
  function Files(nodes: seq<ResourceNode>): (r: seq<string>)
    ensures |r| == |nodes|
    ensures forall i :: 0 <= i < |nodes| ==> r[i] == nodes[i].origin.file
  {
    seq(|nodes|, i requires 0 <= i < |nodes| => nodes[i].origin.file)
  }

  /** The report for a key declared `|nodes|` times: its full name, the
      count, the primary file and the other files. */
  function DuplicateMessage(key: ResourceKey, nodes: seq<ResourceNode>): string
    requires |nodes| > 1
  {
    var files := Files(nodes);
    "Duplicate resource key '" + FullName(key) + "' defined in " + NatToString(|nodes|)
    + " files. Using '" + files[0] + "' (first occurrence). Duplicates in: " + Join(files[1..], ", ")
  }

  /** The entries that are reported: those holding more than one node. */
  predicate Reported(e: Entry) {
    |e.1| > 1
  }

  /** The message for a reported entry, carrying its key. */
  function MessageFor(e: Entry): Message
    requires Reported(e)
  {
    Message(DuplicateMessage(e.0, e.1), Some(e.0))
  }

  /** The reported entries, in order: the reference the loop is measured
      against. */
  function ReportedEntries(es: seq<Entry>): (r: seq<Entry>)
    ensures forall i :: 0 <= i < |r| ==> Reported(r[i]) && r[i] in es
    ensures forall e :: e in es && Reported(e) ==> e in r
    ensures |r| <= |es|
    decreases |es|
  {
    if |es| == 0 then []
    else
      var rest := ReportedEntries(es[1..]);
      assert forall e :: e in es[1..] ==> e in es;
      assert forall e :: e in es ==> e == es[0] || e in es[1..];
      if Reported(es[0]) then [es[0]] + rest else rest
  }

  /** The loop over the graph's entries, in key order: one message per
      reported entry. */
  function Messages(es: seq<Entry>): (r: seq<Message>)
    ensures |r| == |ReportedEntries(es)|
    ensures forall m :: 0 <= m < |r| ==> r[m] == MessageFor(ReportedEntries(es)[m])
    decreases |es|
  {
    if |es| == 0 then []
    else
      var rest := Messages(es[1..]);
      if Reported(es[0]) then [MessageFor(es[0])] + rest else rest
  }

  /** Keeping some entries of a sorted list keeps it sorted. */
  lemma {:induction false} ReportedSorted(es: seq<Entry>)
    requires Sorted(es)
    ensures Sorted(ReportedEntries(es))
    decreases |es|
  {
    if |es| > 0 {
      ReportedSorted(es[1..]);
      var rest := ReportedEntries(es[1..]);
      forall j | 0 <= j < |rest| ensures KeyLess(es[0].0, rest[j].0) {
        var i :| 0 <= i < |es[1..]| && es[1..][i] == rest[j];
        assert es[i + 1] == rest[j];
      }
    }
  }

  /** In a sorted list, the entry at a position is what lookup finds. */
  lemma {:induction false} FindMember(es: seq<Entry>, i: nat)
    requires Sorted(es) && i < |es|
    ensures Find(es, es[i].0) == Some(es[i].1)
    decreases i
  {
    if i > 0 {
      assert KeyLess(es[0].0, es[i].0);
      KeyLessIrreflexive(es[0].0);
      assert es[1..][i - 1] == es[i];
      FindMember(es[1..], i - 1);
    }
  }

  /** Every duplicated key gets a message. */
  lemma {:induction false} DuplicateReported(g: ResourceGraph, k: ResourceKey)
    requires HasDuplicates(g, k)
    ensures exists m :: 0 <= m < |Messages(g)| && Messages(g)[m].key == Some(k)
  {
    var rep := ReportedEntries(g);
    FindIn(g, k);
    var i :| 0 <= i < |g| && g[i] == (k, Find(g, k).value);
    assert g[i] in rep;
    var m :| 0 <= m < |rep| && rep[m] == g[i];
    assert Messages(g)[m].key == Some(k);
  }

  /** Every message is for a duplicated key and is built from all of its
      nodes. */
  lemma {:induction false} ReportIsDuplicate(g: ResourceGraph, m: nat)
    requires m < |Messages(g)|
    ensures Messages(g)[m].key.Some?
    ensures HasDuplicates(g, Messages(g)[m].key.value)
    ensures Messages(g)[m].message == DuplicateMessage(Messages(g)[m].key.value, GetAll(g, Messages(g)[m].key.value).value)
  {
    var rep := ReportedEntries(g);
    assert rep[m] in g;
    var i :| 0 <= i < |g| && g[i] == rep[m];
    FindMember(g, i);
  }

  /** Message keys strictly increase. */
  predicate KeysIncreasing(ms: seq<Message>) {
    forall m, n :: 0 <= m < n < |ms| ==> ms[m].key.Some? && ms[n].key.Some? && KeyLess(ms[m].key.value, ms[n].key.value)
  }

  /** Messages follow the key order, so no key is reported twice. */
  lemma {:induction false} ReportsOrdered(g: ResourceGraph)
    ensures KeysIncreasing(Messages(g))
  {
    ReportedSorted(g);
    var rep := ReportedEntries(g);
    var ms := Messages(g);
    forall m, n | 0 <= m < n < |ms|
      ensures ms[m].key.Some? && ms[n].key.Some? && KeyLess(ms[m].key.value, ms[n].key.value)
    {
      assert ms[m] == MessageFor(rep[m]) && ms[n] == MessageFor(rep[n]);
      assert KeyLess(rep[m].0, rep[n].0);
    }
  }

  /** Exactly one message per duplicated key: a key gets a message iff it
      holds more than one node, and no key gets two. */
  lemma {:induction false} OneMessagePerDuplicate(g: ResourceGraph, k: ResourceKey)
    ensures HasDuplicates(g, k) <==> exists m :: 0 <= m < |Messages(g)| && Messages(g)[m].key == Some(k)
    ensures forall m, n :: 0 <= m < n < |Messages(g)| ==> Messages(g)[m].key != Messages(g)[n].key
  {
    if HasDuplicates(g, k) {
      DuplicateReported(g, k);
    }
    forall m | 0 <= m < |Messages(g)| && Messages(g)[m].key == Some(k) ensures HasDuplicates(g, k) {
      ReportIsDuplicate(g, m);
    }
    ReportsOrdered(g);
    forall m, n | 0 <= m < n < |Messages(g)| ensures Messages(g)[m].key != Messages(g)[n].key {
      KeyLessIrreflexive(Messages(g)[m].key.value);
    }
  }

  /** A graph with no duplicated key produces no messages. */
  lemma {:induction false} NoDuplicatesNoMessages(g: ResourceGraph)
    requires forall k :: !HasDuplicates(g, k)
    ensures Messages(g) == []
  {
    var r := Messages(g);
    if |r| > 0 {
      ReportIsDuplicate(g, 0);
    }
  }

  /** `validate_with_options`: the messages go to the errors when
      duplicates are treated as errors and to the warnings otherwise. */
  function ValidateWithOptions(g: ResourceGraph, options: ValidationOptions): (r: AnalysisResult)
    ensures options.treatDuplicatesAsErrors ==> r.warnings == [] && r.errors == Messages(g)
    ensures !options.treatDuplicatesAsErrors ==> r.errors == [] && r.warnings == Messages(g)
  {
    if options.treatDuplicatesAsErrors then AnalysisResult([], Messages(g))
    else AnalysisResult(Messages(g), [])
  }

  /** `validate`: the default options, under which duplicates are
      warnings. */
  function Validate(g: ResourceGraph): (r: AnalysisResult)
    ensures r.errors == [] && r.warnings == Messages(g)
  {
    ValidateWithOptions(g, ValidationOptions(false))
  }
}
