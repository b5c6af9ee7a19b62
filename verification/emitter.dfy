/** Emission of the flat `r` module (generator/generation/flat/emitter.rs):
    the namespace tree becomes nested `pub mod` blocks, and every key gets
    the code of the first of its nodes, marked deprecated when it is
    duplicated. */
module Emitter {
  import opened Wrappers
  import opened Text
  import opened Identifiers
  import opened Model
  import opened Graph
  import opened Analysis
  import opened Registry
  import opened RustCode
  import opened Tree

  // ---------------------------------------------------------------------
  // Duplicate information

  /** The map from key to message collected from the warnings: a later
      warning for the same key overwrites an earlier one. */
  function WarningFor(ws: seq<Message>, k: ResourceKey): (r: Option<string>)
    ensures r.None? <==> forall i :: 0 <= i < |ws| ==> ws[i].key != Some(k)
    ensures r.Some? ==> exists i :: 0 <= i < |ws| && ws[i] == Message(r.value, Some(k))
                                    && forall j :: i < j < |ws| ==> ws[j].key != Some(k)
    decreases |ws|
  {
    if |ws| == 0 then None
    else if ws[|ws| - 1].key == Some(k) then Some(ws[|ws| - 1].message)
    else
      var r := WarningFor(ws[..|ws| - 1], k);
      WarningForSkip(ws, ws[..|ws| - 1], k, r);
      r
  }

  /** A last warning about another key changes nothing: what holds of the
      earlier warnings holds of all of them. */
  lemma {:induction false} WarningForSkip(ws: seq<Message>, init: seq<Message>, k: ResourceKey, r: Option<string>)
    requires |ws| > 0 && init == ws[..|ws| - 1] && ws[|ws| - 1].key != Some(k)
    requires r.None? <==> forall i :: 0 <= i < |init| ==> init[i].key != Some(k)
    requires r.Some? ==> exists i :: 0 <= i < |init| && init[i] == Message(r.value, Some(k))
                                    && forall j :: i < j < |init| ==> init[j].key != Some(k)
    ensures r.None? <==> forall i :: 0 <= i < |ws| ==> ws[i].key != Some(k)
    ensures r.Some? ==> exists i :: 0 <= i < |ws| && ws[i] == Message(r.value, Some(k))
                                    && forall j :: i < j < |ws| ==> ws[j].key != Some(k)
  {
    assert forall i :: 0 <= i < |init| ==> init[i] == ws[i];
    if r.Some? {
      var i :| 0 <= i < |init| && init[i] == Message(r.value, Some(k))
               && forall j :: i < j < |init| ==> init[j].key != Some(k);
      assert ws[i] == Message(r.value, Some(k));
    }
  }

  /** With the warnings of `validate`, a key has duplicate information
      exactly when it is duplicated, and the information is its report. */
  lemma {:induction false} ValidateWarningFor(g: ResourceGraph, k: ResourceKey)
    ensures WarningFor(Validate(g).warnings, k).Some? <==> HasDuplicates(g, k)
    ensures WarningFor(Validate(g).warnings, k).Some? ==>
              WarningFor(Validate(g).warnings, k).value == DuplicateMessage(k, GetAll(g, k).value)
  {
    var ms := Validate(g).warnings;
    OneMessagePerDuplicate(g, k);
    var r := WarningFor(ms, k);
    if r.Some? {
      var i :| 0 <= i < |ms| && ms[i] == Message(r.value, Some(k));
      ReportIsDuplicate(g, i);
    }
  }

  // ---------------------------------------------------------------------
  // The deprecation note

  const NoteLimit: nat := 100

  /** The note as the source computes it: a warning longer than 100 bytes
      is cut with `&warning[..100]` and gets "..." appended. The slice
      panics (None here) when byte 100 falls inside a character. */
  function NoteAsWritten(w: string): (r: Option<string>)
    ensures Utf8Len(w) <= NoteLimit ==> r == Some(w)
    ensures r.None? <==> Utf8Len(w) > NoteLimit && Utf8Len(BytePrefix(w, NoteLimit)) != NoteLimit
  {
    if Utf8Len(w) > NoteLimit then
      var p := BytePrefix(w, NoteLimit);
      if Utf8Len(p) == NoteLimit then Some(p + "...") else None
    else Some(w)
  }

  /** The note cut at the last character boundary at or before byte 100. */
  function Note(w: string): (r: string)
    ensures Utf8Len(w) <= NoteLimit ==> r == w
    ensures Utf8Len(w) > NoteLimit ==> r == BytePrefix(w, NoteLimit) + "..."
  {
    if Utf8Len(w) > NoteLimit then BytePrefix(w, NoteLimit) + "..." else w
  }

  /** The corrected note never panics, is at most 103 bytes, starts with
      the warning's text, and agrees with the source whenever the source
      does not panic. */
  lemma {:induction false} NoteProperties(w: string)
    ensures Utf8Len(Note(w)) <= NoteLimit + 3
    ensures Utf8Len(w) > NoteLimit ==> Note(w)[..|Note(w)| - 3] <= w
    ensures NoteAsWritten(w).Some? ==> NoteAsWritten(w).value == Note(w)
  {
    if Utf8Len(w) > NoteLimit {
      var p := BytePrefix(w, NoteLimit);
      Utf8LenAppend(p, "...");
      assert (p + "...")[..|p + "..."| - 3] == p;
    }
  }

  /** `n` copies of `c`. */
  function Repeat(c: char, n: nat): (r: string)
    ensures |r| == n && forall i :: 0 <= i < n ==> r[i] == c
  {
    if n == 0 then [] else [c] + Repeat(c, n - 1)
  }

  lemma {:induction false} EuroLen(n: nat)
    ensures Utf8Len(Repeat('€', n)) == 3 * n
  {
    if n > 0 {
      EuroLen(n - 1);
      assert Repeat('€', n)[1..] == Repeat('€', n - 1);
    }
  }

  /** A byte budget of `3 * m + extra` bytes, with `extra < 3`, holds
      `m` euro signs. */
  lemma {:induction false} EuroPrefix(n: nat, m: nat, extra: nat)
    requires extra < 3
    ensures |BytePrefix(Repeat('€', n), 3 * m + extra)| == if n < m then n else m
  {
    if n > 0 && m > 0 {
      var s := Repeat('€', n);
      assert s[1..] == Repeat('€', n - 1);
      EuroPrefix(n - 1, m - 1, extra);
    }
  }

  /** A prefix of a run of euro signs is `3 * |p|` bytes. */
  lemma {:induction false} EuroPrefixPrefix(p: string, n: nat)
    requires p <= Repeat('€', n)
    ensures Utf8Len(p) == 3 * |p|
  {
    assert p == Repeat('€', |p|);
    EuroLen(|p|);
  }

  /** A warning of 34 or more euro signs is over 100 bytes, and byte 100
      falls inside the 34th sign (bytes 99 to 101), so the source's slice
      panics; the corrected note keeps the first 33 signs. */
  lemma {:induction false} NoteAsWrittenPanics(n: nat)
    requires n >= 34
    ensures NoteAsWritten(Repeat('€', n)).None?
    ensures Note(Repeat('€', n)) == Repeat('€', n)[..33] + "..."
  {
    var s := Repeat('€', n);
    EuroLen(n);
    EuroPrefix(n, 33, 1);
    var p := BytePrefix(s, NoteLimit);
    EuroPrefixPrefix(p, n);
    assert p == s[..33];
  }

  lemma {:induction false} RepeatPrefix(c: char, n: nat, m: nat)
    requires m <= n
    ensures Repeat(c, n)[..m] == Repeat(c, m)
  {
  }

  /** The note escaped as the source escapes it: only '"' gets a
      backslash. */
  function EscapeNoteAsWritten(note: string): string {
    Replace(note, "\"", "\\\"")
  }

  /** A note holding a backslash before a character that starts no Rust
      escape, such as the path "res\values.xml" (`\v`), is written into
      the literal as it is, and Rust rejects the literal. `\x`, `\u` and a
      backslash before a newline start escapes this model does not read,
      so they are excluded, and so is a backslash before a carriage return
      and a newline. */
  lemma {:induction false} EscapeNoteAsWrittenBreaks(p: string, c: char, q: string)
    requires forall i :: 0 <= i < |p| ==> p[i] != '\\' && p[i] != '"'
    requires forall i :: 0 <= i < |q| ==> q[i] != '"'
    requires UnescapeCode(c).None? && c != '"' && c != 'x' && c != 'u' && c != '\n'
    requires !(c == '\r' && |q| > 0 && q[0] == '\n')
    ensures UnquoteLiteral("\"" + EscapeNoteAsWritten(p + ['\\', c] + q) + "\"").None?
  {
    var note := p + ['\\', c] + q;
    assert forall i :: 0 <= i < |note| ==> note[i] != '"' by {
      forall i | 0 <= i < |note| ensures note[i] != '"' {
        if i >= |p| + 2 {
          assert note[i] == q[i - |p| - 2];
        }
      }
    }
    NoQuoteUnchanged(note);
    UnknownEscape(p, c, q);
    var lit := "\"" + note + "\"";
    assert lit[1..|lit| - 1] == note;
  }

  /** The path of the example. */
  lemma {:induction false} ResValuesBreaks()
    ensures UnquoteLiteral("\"" + EscapeNoteAsWritten("res" + ['\\', 'v'] + "alues.xml") + "\"").None?
  {
    EscapeNoteAsWrittenBreaks("res", 'v', "alues.xml");
  }

  lemma {:induction false} NoQuoteUnchanged(s: string)
    requires forall i :: 0 <= i < |s| ==> s[i] != '"'
    ensures EscapeNoteAsWritten(s) == s
  {
    forall i: nat ensures !OccursAt(s, "\"", i) {
      if i + 1 <= |s| {
        assert s[i..i + 1][0] == s[i];
      }
    }
    ReplaceAbsent(s, "\"", "\\\"");
  }

  /** Without a backslash in the note, the source's escaping reads back as
      the note. */
  lemma {:induction false} EscapeNoteAsWrittenWithoutBackslash(note: string)
    requires forall i :: 0 <= i < |note| ==> note[i] != '\\'
    ensures UnescapeDebug(EscapeNoteAsWritten(note)) == Some(note)
    decreases |note|
  {
    if |note| > 0 {
      EscapeNoteAsWrittenWithoutBackslash(note[1..]);
      var rest := EscapeNoteAsWritten(note[1..]);
      assert note[..1] == [note[0]];
      if note[0] == '"' {
        assert EscapeNoteAsWritten(note) == "\\\"" + rest;
        assert ("\\\"" + rest)[2..] == rest;
      } else {
        assert EscapeNoteAsWritten(note) == [note[0]] + rest;
        assert ([note[0]] + rest)[1..] == rest;
      }
      assert [note[0]] + note[1..] == note;
    }
  }

  /** The corrected escaping: every character a Rust string literal needs
      escaped, so the literal always reads back as the note. */
  function EscapeNote(note: string): (r: string)
    ensures UnquoteLiteral("\"" + r + "\"") == Some(note)
  {
    EscapeDebugRoundTrip(note);
    var r := EscapeDebug(note);
    assert ("\"" + r + "\"")[1..|"\"" + r + "\""| - 1] == r;
    r
  }

  const DeadCodeComment := "#[allow(dead_code)] // WARNING: Duplicate resource - only first definition is used\n"

  /** The two lines put before a duplicated resource, as the source
      writes them: the note escaped only for '"'. `Note` is the source's
      note whenever the source's slice does not panic; the panic is
      `GenerateRModuleOutcome`'s. */
  function Annotation(warning: string, indent: nat): string {
    Spaces(indent) + "#[deprecated(note = \"" + EscapeNoteAsWritten(Note(warning)) + "\")]\n"
    + Spaces(indent) + DeadCodeComment
  }

  /** The corrected annotation: the note escaped as a whole. */
  function AnnotationCorrected(warning: string, indent: nat): string {
    Spaces(indent) + "#[deprecated(note = \"" + EscapeNote(Note(warning)) + "\")]\n"
    + Spaces(indent) + DeadCodeComment
  }

  function StrLiteralOf(body: string): string {
    "\"" + body + "\""
  }

  /** The corrected attribute's literal reads back as the note, whatever
      the warning. */
  lemma {:induction false} AnnotationNote(warning: string, indent: nat)
    ensures var lit := StrLiteralOf(EscapeNote(Note(warning)));
            UnquoteLiteral(lit) == Some(Note(warning))
            && AnnotationCorrected(warning, indent) == Spaces(indent) + "#[deprecated(note = " + lit + ")]\n" + Spaces(indent) + DeadCodeComment
  {
  }

  /** As the source writes it, the attribute's literal reads back as the
      note when the warning holds no backslash, quotes and apostrophes
      included. */
  lemma {:induction false} AnnotationReadsBack(warning: string, indent: nat)
    requires forall i :: 0 <= i < |warning| ==> warning[i] != '\\'
    ensures var lit := StrLiteralOf(EscapeNoteAsWritten(Note(warning)));
            UnquoteLiteral(lit) == Some(Note(warning))
            && Annotation(warning, indent) == Spaces(indent) + "#[deprecated(note = " + lit + ")]\n" + Spaces(indent) + DeadCodeComment
  {
    var note := Note(warning);
    forall i | 0 <= i < |note| ensures note[i] != '\\' {
      if Utf8Len(warning) > NoteLimit {
        var p := BytePrefix(warning, NoteLimit);
        assert note == p + "...";
        if i < |p| {
          assert note[i] == warning[i];
        }
      }
    }
    EscapeNoteAsWrittenWithoutBackslash(note);
    var body := EscapeNoteAsWritten(note);
    var lit := StrLiteralOf(body);
    assert lit[1..|lit| - 1] == body;
  }

  // ---------------------------------------------------------------------
  // One resource

  /** The first handler of the registry whose kind is `kind`. */
  function FirstByKind(reg: TypeRegistry, kind: ResourceKind): (r: Option<Handler>)
    ensures r.None? <==> forall i :: 0 <= i < |reg| ==> reg[i].Kind() != kind
    ensures r.Some? ==> exists i :: 0 <= i < |reg| && reg[i] == r.value && r.value.Kind() == kind
                                    && forall j :: 0 <= j < i ==> reg[j].Kind() != kind
  {
    if |reg| == 0 then None
    else if reg[0].Kind() == kind then Some(reg[0])
    else FirstByKind(reg[1..], kind)
  }

  /** `emit_resource`: the annotation when there is a warning, then the
      code of the first handler for the node's kind, if it emits any. */
  function EmitResource(reg: TypeRegistry, key: ResourceKey, node: ResourceNode, warning: Option<string>, indent: nat): (r: string)
    ensures warning.Some? ==> Annotation(warning.value, indent) <= r
    ensures FirstByKind(reg, node.kind).None? ==> r == if warning.Some? then Annotation(warning.value, indent) else ""
    ensures warning.None? && FirstByKind(reg, node.kind).Some? ==> r == FirstByKind(reg, node.kind).value.Emit(key, node, indent).GetOr("")
  {
    (if warning.Some? then Annotation(warning.value, indent) else "")
    + match FirstByKind(reg, node.kind)
      case None => ""
      case Some(h) => h.Emit(key, node, indent).GetOr("")
  }

  /** With the default registry, each kind goes to its own handler, and
      kinds without a registered handler get only the annotation. */
  lemma {:induction false} DefaultEmitResource(key: ResourceKey, node: ResourceNode, warning: Option<string>, indent: nat)
    ensures var pre := if warning.Some? then Annotation(warning.value, indent) else "";
            EmitResource(Default(), key, node, warning, indent) ==
              pre + match node.kind
                    case StringKind => StringHandler.Emit(key, node, indent).GetOr("")
                    case NumberKind => NumberHandler.Emit(key, node, indent).GetOr("")
                    case BoolKind => BoolHandler.Emit(key, node, indent).GetOr("")
                    case ColorKind => ColorHandler.Emit(key, node, indent).GetOr("")
                    case _ => ""
  {
    var reg := Default();
    assert reg == [StringHandler, NumberHandler, BoolHandler, ColorHandler];
  }

  // ---------------------------------------------------------------------
  // The tree

  /** The code for one key: its first node, if the graph holds it. */
  function EmitKey(g: ResourceGraph, reg: TypeRegistry, ws: seq<Message>, k: ResourceKey, indent: nat): string {
    match GetAll(g, k)
    case None => ""
    case Some(ns) => if |ns| > 0 then EmitResource(reg, k, ns[0], WarningFor(ws, k), indent) else ""
  }

  /** A child namespace: its `pub mod` line, its contents one level
      deeper, and the closing brace. */
  function ModBlock(name: string, body: string, indent: nat): string {
    Spaces(indent) + "pub mod " + Sanitize(name) + " {\n" + body + Spaces(indent) + "}\n"
  }

  /** The blocks of a node's child namespaces, in name order. */
  function ChildBlocks(g: ResourceGraph, reg: TypeRegistry, ws: seq<Message>, node: NamespaceNode<ResourceKey>, indent: nat): (r: seq<string>)
    ensures |r| == |node.children|
    decreases node, 0
  {
    var cs := node.children;
    seq(|cs|, i requires 0 <= i < |cs| => ModBlock(cs[i].0, EmitTree(g, reg, ws, cs[i].1, indent + 4), indent))
  }

  /** The code of a node's keys, in their order. */
  function KeyBlocks(g: ResourceGraph, reg: TypeRegistry, ws: seq<Message>, ks: seq<ResourceKey>, indent: nat): (r: seq<string>)
    ensures |r| == |ks|
  {
    seq(|ks|, j requires 0 <= j < |ks| => EmitKey(g, reg, ws, ks[j], indent))
  }

  /** `emit_namespace_tree`: the children in name order, then the keys in
      their order. */
  function EmitTree(g: ResourceGraph, reg: TypeRegistry, ws: seq<Message>, node: NamespaceNode<ResourceKey>, indent: nat): string
    decreases node, 1
  {
    Concat(ChildBlocks(g, reg, ws, node, indent)) + Concat(KeyBlocks(g, reg, ws, node.items, indent))
  }

  /** The code of a key held by `node` itself. */
  lemma {:induction false} EmitTreeOwnKey(g: ResourceGraph, reg: TypeRegistry, ws: seq<Message>, node: NamespaceNode<ResourceKey>, indent: nat, k: ResourceKey)
    requires k in node.items
    ensures Contains(EmitTree(g, reg, ws, node, indent), EmitKey(g, reg, ws, k, indent))
  {
    var ks := node.items;
    var keys := KeyBlocks(g, reg, ws, ks, indent);
    var blocks := Concat(ChildBlocks(g, reg, ws, node, indent));
    var j :| 0 <= j < |ks| && ks[j] == k;
    ConcatContains(keys, j);
    ContainsMiddle(blocks, Concat(keys), []);
    assert blocks + Concat(keys) + [] == EmitTree(g, reg, ws, node, indent);
    ContainsTrans(EmitTree(g, reg, ws, node, indent), Concat(keys), keys[j]);
  }

  /** A child's block holds the child's code. */
  lemma {:induction false} ChildBlockHolds(g: ResourceGraph, reg: TypeRegistry, ws: seq<Message>, node: NamespaceNode<ResourceKey>, indent: nat, i: nat)
    requires i < |node.children|
    ensures Contains(ChildBlocks(g, reg, ws, node, indent)[i], EmitTree(g, reg, ws, node.children[i].1, indent + 4))
  {
    var c := node.children[i];
    var inner := EmitTree(g, reg, ws, c.1, indent + 4);
    var open := Spaces(indent) + "pub mod " + Sanitize(c.0) + " {\n";
    assert ChildBlocks(g, reg, ws, node, indent)[i] == open + inner + (Spaces(indent) + "}\n");
    ContainsMiddle(open, inner, Spaces(indent) + "}\n");
  }

  /** The code of a child namespace is part of its parent's. */
  lemma {:induction false} EmitTreeChild(g: ResourceGraph, reg: TypeRegistry, ws: seq<Message>, node: NamespaceNode<ResourceKey>, indent: nat, i: nat)
    requires i < |node.children|
    ensures Contains(EmitTree(g, reg, ws, node, indent), EmitTree(g, reg, ws, node.children[i].1, indent + 4))
  {
    ChildBlockHolds(g, reg, ws, node, indent, i);
    ContainsInParts(ChildBlocks(g, reg, ws, node, indent), Concat(KeyBlocks(g, reg, ws, node.items, indent)), i,
                    EmitTree(g, reg, ws, node.children[i].1, indent + 4));
  }

  /** The code of every key held by a node below `node` appears in the
      tree's code, four spaces deeper per namespace level. */
  lemma {:induction false} EmitTreeContains(g: ResourceGraph, reg: TypeRegistry, ws: seq<Message>, node: NamespaceNode<ResourceKey>, indent: nat, q: seq<string>, k: ResourceKey, depth: nat)
    requires At(node, q).Some? && k in At(node, q).value.items
    requires depth == indent + 4 * |q|
    ensures Contains(EmitTree(g, reg, ws, node, indent), EmitKey(g, reg, ws, k, depth))
    decreases |q|
  {
    if |q| == 0 {
      EmitTreeOwnKey(g, reg, ws, node, indent, k);
    } else {
      var c := Lookup(node.children, q[0]).value;
      var i :| 0 <= i < |node.children| && node.children[i] == (q[0], c);
      EmitTreeContains(g, reg, ws, c, indent + 4, q[1..], k, depth);
      EmitTreeChild(g, reg, ws, node, indent, i);
      ContainsTrans(EmitTree(g, reg, ws, node, indent), EmitTree(g, reg, ws, c, indent + 4), EmitKey(g, reg, ws, k, depth));
    }
  }

  const ModuleHeader := "\npub mod r {\n"

  /** `generate_r_module`: the tree built from the graph, sorted, and
      emitted inside `pub mod r`. */
  function GenerateRModule(g: ResourceGraph, reg: TypeRegistry, ws: seq<Message>): (r: string)
    ensures |r| >= |ModuleHeader| + 2 && r[..|ModuleHeader|] == ModuleHeader && r[|r| - 2..] == "}\n"
  {
    var code := ModuleHeader + EmitTree(g, reg, ws, SortTree(BuildNamespaceTree(g)), 4) + "}\n";
    assert code[..|ModuleHeader|] == ModuleHeader;
    code
  }

  /** Every key of the graph is emitted: its first node's code, with the
      annotation when it has duplicate information, appears in the module
      at the depth of its namespace. */
  lemma {:induction false} EveryKeyEmitted(g: ResourceGraph, reg: TypeRegistry, ws: seq<Message>, k: ResourceKey)
    requires GetAll(g, k).Some?
    ensures |GetAll(g, k).value| > 0
    ensures Contains(GenerateRModule(g, reg, ws),
                     EmitResource(reg, k, GetAll(g, k).value[0], WarningFor(ws, k), 4 + 4 * |k.namespace|))
  {
    FindIn(g, k);
    var sorted := SortTree(BuildNamespaceTree(g));
    SortedTreeHoldsKey(g, k);
    EmitTreeContains(g, reg, ws, sorted, 4, k.namespace, k, 4 + 4 * |k.namespace|);
    ContainsWrapped(ModuleHeader, EmitTree(g, reg, ws, sorted, 4), "}\n", EmitKey(g, reg, ws, k, 4 + 4 * |k.namespace|));
  }

  // ---------------------------------------------------------------------
  // The panic

  /** The source's slice of the warning panics. */
  predicate NotePanics(warning: Option<string>) {
    warning.Some? && NoteAsWritten(warning.value).None?
  }

  /** `generate_r_module` as the source runs it: every key of the graph is
      emitted with the warning last reported for it, so the run panics when
      some key of the graph has a warning that cannot be cut, and
      otherwise returns the module. */
  function GenerateRModuleOutcome(g: ResourceGraph, reg: TypeRegistry, ws: seq<Message>): (r: Outcome<string>)
    ensures r.Panics? <==> exists k :: GetAll(g, k).Some? && NotePanics(WarningFor(ws, k))
    ensures r.Returns? ==> r.value == GenerateRModule(g, reg, ws)
  {
    if exists i :: 0 <= i < |ws| && ws[i].key.Some? && GetAll(g, ws[i].key.value).Some? && NotePanics(WarningFor(ws, ws[i].key.value))
    then Panics
    else Returns(GenerateRModule(g, reg, ws))
  }

  /** When no warning is over 100 bytes, the source returns the module. */
  lemma {:induction false} ShortWarningsReturn(g: ResourceGraph, reg: TypeRegistry, ws: seq<Message>)
    requires forall i :: 0 <= i < |ws| ==> Utf8Len(ws[i].message) <= NoteLimit
    ensures GenerateRModuleOutcome(g, reg, ws) == Returns(GenerateRModule(g, reg, ws))
  {
    forall k | GetAll(g, k).Some? ensures !NotePanics(WarningFor(ws, k)) {
      var w := WarningFor(ws, k);
      if w.Some? {
        var i :| 0 <= i < |ws| && ws[i] == Message(w.value, Some(k))
                 && forall j :: i < j < |ws| ==> ws[j].key != Some(k);
      }
    }
  }

  /** A key of the graph whose warning is 34 or more euro signs makes the
      source panic. */
  lemma {:induction false} EuroWarningPanics(g: ResourceGraph, reg: TypeRegistry, ws: seq<Message>, k: ResourceKey, n: nat)
    requires GetAll(g, k).Some? && WarningFor(ws, k) == Some(Repeat('€', n)) && n >= 34
    ensures GenerateRModuleOutcome(g, reg, ws).Panics?
  {
    NoteAsWrittenPanics(n);
    assert GetAll(g, k).Some? && NotePanics(WarningFor(ws, k));
  }
}
