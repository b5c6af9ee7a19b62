/** What the function `emit_rust` writes for a template returns: the
    format string it builds, read by the `format!` rules of the legacy
    generator (`LegacyTemplates.FormatApply`), compared with the text the
    template stands for. A template text is described as chunks without
    braces interleaved with its placeholders. */
module TemplateFormat {
  import opened Wrappers
  import opened Text
  import opened Identifiers
  import opened Model
  import opened Template
  import LegacyTypes
  import LegacyTemplates

  // ---------------------------------------------------------------------
  // Texts built from pieces

  /** `chunks[0] + fills[0] + chunks[1] + … + fills[n-1] + chunks[n]`. */
  function Interleave(chunks: seq<string>, fills: seq<string>): string
    requires |chunks| == |fills| + 1
    decreases |fills|
  {
    if |fills| == 0 then chunks[0] else chunks[0] + fills[0] + Interleave(chunks[1..], fills[1..])
  }

  predicate BraceFree(s: string) {
    '{' !in s && '}' !in s
  }

  /** Every chunk is free of braces. */
  predicate PlainChunks(chunks: seq<string>) {
    forall i :: 0 <= i < |chunks| ==> BraceFree(chunks[i])
  }

  /** `{name}` for each name. */
  function Braced(names: seq<string>): (r: seq<string>)
    ensures |r| == |names|
    ensures forall i :: 0 <= i < |names| ==> r[i] == "{" + names[i] + "}"
  {
    seq(|names|, i requires 0 <= i < |names| => "{" + names[i] + "}")
  }

  /** The declared parameter names, in declaration order. */
  function NameList(params: seq<TemplateParam>): (r: seq<string>)
    ensures |r| == |params|
    ensures forall i :: 0 <= i < |params| ==> r[i] == params[i].name
  {
    seq(|params|, i requires 0 <= i < |params| => params[i].name)
  }

  /** What each argument shows. */
  function Shown(args: seq<string>, display: string -> string): (r: seq<string>)
    ensures |r| == |args|
    ensures forall i :: 0 <= i < |args| ==> r[i] == display(args[i])
  {
    seq(|args|, i requires 0 <= i < |args| => display(args[i]))
  }

  /** `k` copies of `{}`. */
  function Slots(k: nat): (r: seq<string>)
    ensures |r| == k
    ensures forall i :: 0 <= i < k ==> r[i] == "{}"
  {
    seq(k, i requires 0 <= i < k => "{}")
  }

  /** A placeholder text names a declared parameter with no brace in it. */
  predicate Declared(hs: seq<string>, params: seq<TemplateParam>) {
    forall i :: 0 <= i < |hs| ==> BraceFree(hs[i]) && hs[i] in NameList(params)
  }

  predicate PlainNames(params: seq<TemplateParam>) {
    forall i :: 0 <= i < |params| ==> BraceFree(params[i].name)
  }

  /** The text a template stands for: each placeholder shows the argument
      of the parameter it names, passed under its sanitized name. */
  function Intended(chunks: seq<string>, hs: seq<string>, display: string -> string): string
    requires |chunks| == |hs| + 1
  {
    Interleave(chunks, Shown(SanitizeAll(hs), display))
  }

  function SanitizeAll(names: seq<string>): (r: seq<string>)
    ensures |r| == |names|
    ensures forall i :: 0 <= i < |names| ==> r[i] == Sanitize(names[i])
  {
    seq(|names|, i requires 0 <= i < |names| => Sanitize(names[i]))
  }

  // ---------------------------------------------------------------------
  // `str::replace` over an interleaved text

  /** Two texts that disagree at a position both have. */
  predicate Differs(h: string, p: string) {
    exists j :: 0 <= j < |h| && j < |p| && h[j] != p[j]
  }

  /** Each hole equal to `pat` becomes `rep`. */
  function Swap(hs: seq<string>, pat: string, rep: string): (r: seq<string>)
    ensures |r| == |hs|
    ensures forall i :: 0 <= i < |hs| ==> r[i] == (if hs[i] == pat then rep else hs[i])
  {
    seq(|hs|, i requires 0 <= i < |hs| => if hs[i] == pat then rep else hs[i])
  }

  /** Text shorter than a non-empty pattern is kept as it is. */
  lemma {:induction false} ReplaceShort(u: string, pat: string, rep: string)
    requires 0 < |pat| && |u| < |pat|
    ensures Replace(u, pat, rep) == u
  {
  }

  /** Where the pattern does not start, the first character is kept. */
  lemma {:induction false} ReplaceSkip(u: string, pat: string, rep: string)
    requires 0 < |pat| <= |u| && u[..|pat|] != pat
    ensures Replace(u, pat, rep) == [u[0]] + Replace(u[1..], pat, rep)
  {
  }

  /** A prefix without the pattern's first character is kept as it is. */
  lemma {:induction false} ReplacePlain(s: string, t: string, pat: string, rep: string)
    requires |pat| > 0 && pat[0] !in s
    ensures Replace(s + t, pat, rep) == s + Replace(t, pat, rep)
    decreases |s|
  {
    var u := s + t;
    if |s| == 0 {
      assert u == t;
    } else if |u| < |pat| {
      ReplaceShort(u, pat, rep);
      ReplaceShort(t, pat, rep);
    } else {
      assert u[..|pat|][0] == s[0];
      ReplaceSkip(u, pat, rep);
      assert u[1..] == s[1..] + t;
      ReplacePlain(s[1..], t, pat, rep);
      assert [s[0]] + s[1..] == s;
    }
  }

  /** The pattern itself at the front is replaced. */
  lemma {:induction false} ReplaceHit(t: string, pat: string, rep: string)
    requires |pat| > 0
    ensures Replace(pat + t, pat, rep) == rep + Replace(t, pat, rep)
  {
    var u := pat + t;
    assert u[..|pat|] == pat && u[|pat|..] == t;
  }

  /** A hole that disagrees with the pattern, and has the pattern's first
      character only at its front, is kept as it is. */
  lemma {:induction false} ReplaceMiss(h: string, t: string, pat: string, rep: string, j: nat)
    requires |pat| > 0 && j < |h| && j < |pat| && h[j] != pat[j] && pat[0] !in h[1..]
    ensures Replace(h + t, pat, rep) == h + Replace(t, pat, rep)
  {
    var u := h + t;
    if |u| < |pat| {
      ReplaceShort(u, pat, rep);
      ReplaceShort(t, pat, rep);
    } else {
      MissFront(h, t, pat, j);
      ReplaceSkip(u, pat, rep);
      ReplacePlain(h[1..], t, pat, rep);
      Unfront(h, t, Replace(t, pat, rep));
    }
  }

  lemma {:induction false} MissFront(h: string, t: string, pat: string, j: nat)
    requires j < |h| && j < |pat| <= |h + t| && h[j] != pat[j]
    ensures (h + t)[..|pat|] != pat && (h + t)[0] == h[0] && (h + t)[1..] == h[1..] + t
  {
    assert (h + t)[..|pat|][j] == h[j];
  }

  lemma {:induction false} Unfront(h: string, t: string, v: string)
    requires |h| > 0
    ensures [(h + t)[0]] + (h[1..] + v) == h + v
  {
  }

  /** Replacing a pattern found only as whole holes replaces those holes. */
  lemma {:induction false} ReplaceInterleave(chunks: seq<string>, hs: seq<string>, pat: string, rep: string)
    requires |chunks| == |hs| + 1 && |pat| > 0
    requires forall i :: 0 <= i < |chunks| ==> pat[0] !in chunks[i]
    requires forall i :: 0 <= i < |hs| ==> hs[i] == pat || (Differs(hs[i], pat) && pat[0] !in hs[i][1..])
    ensures Replace(Interleave(chunks, hs), pat, rep) == Interleave(chunks, Swap(hs, pat, rep))
    decreases |hs|
  {
    if |hs| == 0 {
      ReplacePlain(chunks[0], "", pat, rep);
      assert chunks[0] + "" == chunks[0];
      assert Replace("", pat, rep) == "";
    } else {
      ReplaceInterleave(chunks[1..], hs[1..], pat, rep);
      ReplaceStep(chunks, hs, pat, rep);
    }
  }

  /** The first hole of `ReplaceInterleave`, given the rest. */
  lemma {:induction false} ReplaceStep(chunks: seq<string>, hs: seq<string>, pat: string, rep: string)
    requires |chunks| == |hs| + 1 && |hs| > 0 && |pat| > 0 && pat[0] !in chunks[0]
    requires hs[0] == pat || (Differs(hs[0], pat) && pat[0] !in hs[0][1..])
    requires Replace(Interleave(chunks[1..], hs[1..]), pat, rep) == Interleave(chunks[1..], Swap(hs[1..], pat, rep))
    ensures Replace(Interleave(chunks, hs), pat, rep) == Interleave(chunks, Swap(hs, pat, rep))
  {
    var rest := Interleave(chunks[1..], hs[1..]);
    var sw := Swap(hs, pat, rep);
    var first := if hs[0] == pat then rep else hs[0];
    assert Interleave(chunks, hs) == chunks[0] + (hs[0] + rest);
    assert Interleave(chunks, sw) == chunks[0] + (first + Interleave(chunks[1..], Swap(hs[1..], pat, rep))) by {
      assert sw[1..] == Swap(hs[1..], pat, rep);
    }
    assert Replace(hs[0] + rest, pat, rep) == first + Replace(rest, pat, rep) by {
      ReplaceHole(hs[0], rest, pat, rep);
    }
    ReplacePlain(chunks[0], hs[0] + rest, pat, rep);
  }

  /** A hole in front of the rest: the pattern is replaced, a hole that
      disagrees with it is kept. */
  lemma {:induction false} ReplaceHole(h: string, rest: string, pat: string, rep: string)
    requires |pat| > 0 && (h == pat || (Differs(h, pat) && pat[0] !in h[1..]))
    ensures Replace(h + rest, pat, rep) == (if h == pat then rep else h) + Replace(rest, pat, rep)
  {
    if h == pat {
      ReplaceHit(rest, pat, rep);
    } else {
      var j :| 0 <= j < |h| && j < |pat| && h[j] != pat[j];
      ReplaceMiss(h, rest, pat, rep, j);
    }
  }

  /** `[o] + x + cx` and `[o] + y + cy` with `cx` and `cy` starting with a
      `close` that neither `x` nor `y` holds disagree when `x != y`. */
  lemma {:induction false} FramedDiffer(o: char, x: string, cx: string, y: string, cy: string, close: char)
    requires |cx| > 0 && |cy| > 0 && cx[0] == close && cy[0] == close
    requires close !in x && close !in y && x != y
    ensures Differs([o] + x + cx, [o] + y + cy)
  {
    var h := [o] + x + cx;
    var p := [o] + y + cy;
    if |x| == |y| {
      var k :| 0 <= k < |x| && x[k] != y[k];
      assert h[k + 1] == x[k] && p[k + 1] == y[k];
    } else if |x| < |y| {
      assert h[|x| + 1] == close && p[|x| + 1] == y[|x|];
    } else {
      assert p[|y| + 1] == close && h[|y| + 1] == x[|y|];
    }
  }

  // ---------------------------------------------------------------------
  // Named placeholders

  /** Each placeholder naming `n` becomes `{}`, written as the empty name. */
  function Clear(hs: seq<string>, n: string): (r: seq<string>)
    ensures |r| == |hs|
    ensures forall i :: 0 <= i < |hs| ==> r[i] == (if hs[i] == n then "" else hs[i])
  {
    seq(|hs|, i requires 0 <= i < |hs| => if hs[i] == n then "" else hs[i])
  }

  /** One round of the named loop: `{n}` becomes `{}`. */
  lemma {:induction false} NamedRound(chunks: seq<string>, hs: seq<string>, n: string)
    requires |chunks| == |hs| + 1 && PlainChunks(chunks) && BraceFree(n)
    requires forall i :: 0 <= i < |hs| ==> BraceFree(hs[i])
    ensures Replace(Interleave(chunks, Braced(hs)), "{" + n + "}", "{}") == Interleave(chunks, Braced(Clear(hs, n)))
  {
    var pat := "{" + n + "}";
    var holes := Braced(hs);
    forall i | 0 <= i < |holes|
      ensures holes[i] == pat || (Differs(holes[i], pat) && pat[0] !in holes[i][1..])
    {
      assert holes[i][1..] == hs[i] + "}";
      if hs[i] != n {
        FramedDiffer('{', hs[i], "}", n, "}", '}');
        assert ['{'] + hs[i] + "}" == holes[i] && ['{'] + n + "}" == pat;
      }
    }
    ReplaceInterleave(chunks, holes, pat, "{}");
    var cleared := Braced(Clear(hs, n));
    forall i | 0 <= i < |holes| ensures Swap(holes, pat, "{}")[i] == cleared[i] {
      if hs[i] == n {
        assert cleared[i] == "{" + "" + "}";
      } else {
        assert holes[i] != pat by {
          assert holes[i][1..|holes[i]| - 1] == hs[i];
          assert pat[1..|pat| - 1] == n;
        }
      }
    }
    assert Swap(holes, pat, "{}") == cleared;
  }

  /** The named loop turns every declared placeholder into `{}`, whatever
      order they appear in. */
  lemma {:induction false} NamedFormatSlots(chunks: seq<string>, hs: seq<string>, params: seq<TemplateParam>)
    requires |chunks| == |hs| + 1 && PlainChunks(chunks) && PlainNames(params)
    requires forall i :: 0 <= i < |hs| ==> BraceFree(hs[i]) && (hs[i] == "" || hs[i] in NameList(params))
    ensures NamedFormat(Interleave(chunks, Braced(hs)), params) == Interleave(chunks, Slots(|hs|))
    decreases |params|
  {
    if |params| == 0 {
      assert Braced(hs) == Slots(|hs|) by {
        forall i | 0 <= i < |hs| ensures Braced(hs)[i] == Slots(|hs|)[i] {
          assert hs[i] == "";
        }
      }
    } else {
      var n := params[0].name;
      NamedRound(chunks, hs, n);
      var next := Clear(hs, n);
      forall i | 0 <= i < |next| ensures next[i] == "" || next[i] in NameList(params[1..]) {
        if hs[i] != n && hs[i] != "" {
          var k :| 0 <= k < |params| && NameList(params)[k] == hs[i];
          assert k > 0;
          assert NameList(params[1..])[k - 1] == hs[i];
        }
      }
      NamedFormatSlots(chunks, next, params[1..]);
    }
  }

  /** Text without braces passes through `format!` as it is. */
  lemma {:induction false} ApplyPlain(x: string, rest: string, args: seq<string>, display: string -> string)
    requires BraceFree(x)
    ensures LegacyTemplates.FormatApply(x + rest, args, display)
         == LegacyTemplates.Prepend(x, LegacyTemplates.FormatApply(rest, args, display))
    decreases |x|
  {
    if |x| == 0 {
      assert x + rest == rest;
      match LegacyTemplates.FormatApply(rest, args, display)
      case None =>
      case Some(v) => assert x + v == v;
    } else {
      assert (x + rest)[0] == x[0];
      assert (x + rest)[1..] == x[1..] + rest;
      ApplyPlain(x[1..], rest, args, display);
      match LegacyTemplates.FormatApply(rest, args, display)
      case None =>
      case Some(v) => assert [x[0]] + (x[1..] + v) == x + v;
    }
  }

  /** A `{}` takes the next argument, and there must be one. */
  lemma {:induction false} ApplySlot(rest: string, args: seq<string>, display: string -> string)
    ensures LegacyTemplates.FormatApply("{}" + rest, args, display)
         == if |args| > 0 then LegacyTemplates.Prepend(display(args[0]), LegacyTemplates.FormatApply(rest, args[1..], display))
            else None
  {
    var f := "{}" + rest;
    assert f[0] == '{' && f[1] == '}' && f[2..] == rest;
  }

  /** `format!` over `k` slots takes exactly `k` arguments and shows them
      in order. */
  lemma {:induction false} ApplySlots(chunks: seq<string>, args: seq<string>, display: string -> string)
    requires |chunks| > 0 && PlainChunks(chunks)
    ensures LegacyTemplates.FormatApply(Interleave(chunks, Slots(|chunks| - 1)), args, display)
         == if |args| == |chunks| - 1 then Some(Interleave(chunks, Shown(args, display))) else None
    decreases |chunks|
  {
    var k := |chunks| - 1;
    if k == 0 {
      ApplyPlain(chunks[0], "", args, display);
      assert chunks[0] + "" == chunks[0];
    } else {
      var rest := Interleave(chunks[1..], Slots(k - 1));
      assert Slots(k)[1..] == Slots(k - 1);
      assert Interleave(chunks, Slots(k)) == chunks[0] + ("{}" + rest);
      ApplyPlain(chunks[0], "{}" + rest, args, display);
      ApplySlot(rest, args, display);
      if |args| > 0 {
        ApplySlots(chunks[1..], args[1..], display);
        var shown := Shown(args, display);
        assert shown[1..] == Shown(args[1..], display);
        if |args| == k {
          var tail := Interleave(chunks[1..], shown[1..]);
          assert Interleave(chunks, shown) == chunks[0] + (shown[0] + tail);
        }
      }
    }
  }

  /** The function `emit_rust` writes for named parameters: its literal
      reads back as the format string, and the format string takes the
      arguments in declaration order, one per placeholder, whatever
      parameter each placeholder names. */
  lemma {:induction false} NamedFormatFills(chunks: seq<string>, hs: seq<string>, params: seq<TemplateParam>, display: string -> string)
    requires |chunks| == |hs| + 1 && PlainChunks(chunks) && PlainNames(params) && Declared(hs, params)
    ensures var f := NamedFormat(Interleave(chunks, Braced(hs)), params);
            UnescapeDebug(EscapeDebug(f)) == Some(f)
            && LegacyTemplates.FormatApply(f, NamedArgs(params), display)
               == if |hs| == |params| then Some(Interleave(chunks, Shown(NamedArgs(params), display))) else None
  {
    NamedFormatSlots(chunks, hs, params);
    EscapeDebugRoundTrip(NamedFormat(Interleave(chunks, Braced(hs)), params));
    ApplySlots(chunks, NamedArgs(params), display);
  }

  /** When the placeholders name the parameters in declaration order, the
      function returns what the template means. */
  lemma {:induction false} NamedInOrderMeaning(key: ResourceKey, node: ResourceNode, indent: nat, chunks: seq<string>, display: string -> string)
    requires node.value.TemplateValue? && |node.value.params| > 0
    requires var ps := node.value.params;
             |chunks| == |ps| + 1 && PlainChunks(chunks) && PlainNames(ps)
             && node.value.template == Interleave(chunks, Braced(NameList(ps)))
    ensures var ps := node.value.params;
            var f := NamedFormat(node.value.template, ps);
            Emit(key, node, indent) == Some(FnItem(indent, Sanitize(key.name), NamedParams(ps), f, NamedArgs(ps)))
            && UnescapeDebug(EscapeDebug(f)) == Some(f)
            && LegacyTemplates.FormatApply(f, NamedArgs(ps), display) == Some(Intended(chunks, NameList(ps), display))
  {
    var ps := node.value.params;
    NamedFormatFills(chunks, NameList(ps), ps, display);
    assert SanitizeAll(NameList(ps)) == NamedArgs(ps);
  }

  /** With the placeholders in another order, the arguments still go in
      declaration order: each placeholder shows another parameter's value. */
  lemma {:induction false} NamedOutOfOrder(chunks: seq<string>, params: seq<TemplateParam>, x: string, y: string, display: string -> string)
    requires |params| == 2 && params[0].name == x && params[1].name == y
    requires BraceFree(x) && BraceFree(y) && |chunks| == 3 && PlainChunks(chunks)
    ensures var f := NamedFormat(Interleave(chunks, Braced([y, x])), params);
            LegacyTemplates.FormatApply(f, NamedArgs(params), display)
              == Some(Interleave(chunks, [display(Sanitize(x)), display(Sanitize(y))]))
            && Intended(chunks, [y, x], display) == Interleave(chunks, [display(Sanitize(y)), display(Sanitize(x))])
  {
    assert NameList(params)[0] == x && NameList(params)[1] == y;
    NamedFormatFills(chunks, [y, x], params, display);
    assert Shown(NamedArgs(params), display) == [display(Sanitize(x)), display(Sanitize(y))];
    assert Shown(SanitizeAll([y, x]), display) == [display(Sanitize(y)), display(Sanitize(x))];
  }

  /** A placeholder used twice leaves one `{}` without an argument, and
      `format!` rejects the call. */
  lemma {:induction false} NamedRepeatedBreaks(chunks: seq<string>, params: seq<TemplateParam>, x: string, display: string -> string)
    requires |params| == 1 && params[0].name == x && PlainNames(params)
    requires |chunks| == 3 && PlainChunks(chunks)
    ensures LegacyTemplates.FormatApply(NamedFormat(Interleave(chunks, Braced([x, x])), params), NamedArgs(params), display).None?
  {
    assert NameList(params)[0] == x;
    NamedFormatFills(chunks, [x, x], params, display);
  }

  lemma {:induction false} SanitizeLetter(c: char)
    requires 'a' <= c <= 'z'
    ensures Sanitize([c]) == [c]
  {
    assert IsIdentChar(c);
  }

  /** `{b} {a}` with parameters `a` then `b`: the function returns
      "a b", where the template means "b a". */
  lemma {:induction false} NamedSwapExample(key: ResourceKey, node: ResourceNode, indent: nat, display: string -> string)
    requires node.value == TemplateValue("{b} {a}", [TemplateParam("a", StringParam), TemplateParam("b", StringParam)])
    requires display("a") == "a" && display("b") == "b"
    ensures var f := NamedFormat(node.value.template, node.value.params);
            Emit(key, node, indent) == Some(FnItem(indent, Sanitize(key.name), NamedParams(node.value.params), f, ["a", "b"]))
            && UnescapeDebug(EscapeDebug(f)) == Some(f)
            && LegacyTemplates.FormatApply(f, ["a", "b"], display) == Some("a b")
            && Intended(["", " ", ""], ["b", "a"], display) == "b a"
  {
    var ps := node.value.params;
    var f := NamedFormat(node.value.template, ps);
    SwapArgs(ps);
    SwapText(node.value.template);
    EscapeDebugRoundTrip(f);
    SwapApply(ps, f, display);
  }

  lemma {:induction false} SwapArgs(ps: seq<TemplateParam>)
    requires ps == [TemplateParam("a", StringParam), TemplateParam("b", StringParam)]
    ensures NamedArgs(ps) == ["a", "b"]
  {
    SanitizeLetter('a');
    SanitizeLetter('b');
  }

  lemma {:induction false} SwapApply(ps: seq<TemplateParam>, f: string, display: string -> string)
    requires ps == [TemplateParam("a", StringParam), TemplateParam("b", StringParam)]
    requires NamedArgs(ps) == ["a", "b"]
    requires f == NamedFormat(Interleave(["", " ", ""], Braced(["b", "a"])), ps)
    requires display("a") == "a" && display("b") == "b"
    ensures LegacyTemplates.FormatApply(f, ["a", "b"], display) == Some("a b")
    ensures Intended(["", " ", ""], ["b", "a"], display) == "b a"
  {
    var chunks := ["", " ", ""];
    SanitizeLetter('a');
    SanitizeLetter('b');
    var da := display(Sanitize("a"));
    var db := display(Sanitize("b"));
    assert da == "a" && db == "b";
    NamedOutOfOrder(chunks, ps, "a", "b", display);
    InterleaveThree(chunks, da, db);
    InterleaveThree(chunks, db, da);
    assert "a" + " " + "b" == "a b" && "b" + " " + "a" == "b a";
  }

  lemma {:induction false} SwapText(t: string)
    requires t == "{b} {a}"
    ensures t == Interleave(["", " ", ""], Braced(["b", "a"]))
  {
    var bs := Braced(["b", "a"]);
    assert "{" + "b" + "}" == "{b}" && "{" + "a" + "}" == "{a}";
    assert |bs| == 2 && bs[0] == "{b}" && bs[1] == "{a}";
    assert bs == ["{b}", "{a}"];
    assert "{b}" + " " + "{a}" == "{b} {a}";
    InterleaveThree(["", " ", ""], "{b}", "{a}");
  }

  lemma {:induction false} InterleaveThree(chunks: seq<string>, u: string, v: string)
    requires chunks == ["", " ", ""]
    ensures Interleave(chunks, [u, v]) == u + " " + v
  {
    var c1 := chunks[1..];
    assert c1 == [" ", ""] && c1[1..] == [""];
    assert [u, v][1..] == [v] && [v][1..] == [];
    assert Interleave(c1[1..], []) == "";
    assert Interleave(c1, [v]) == " " + v + "";
    assert Interleave(chunks, [u, v]) == "" + u + (" " + v + "");
  }

  // ---------------------------------------------------------------------
  // Named placeholders, corrected

  /** The parameters as the legacy generator declares them; only their
      names matter to the body. */
  function LegacyParams(params: seq<TemplateParam>): (r: seq<LegacyTypes.TemplateParameter>)
    ensures |r| == |params|
    ensures forall i :: 0 <= i < |params| ==> r[i].name == params[i].name
  {
    seq(|params|, i requires 0 <= i < |params| => LegacyTypes.TemplateParameter(params[i].name, LegacyTypes.StringParam))
  }

  /** The corrected body: each placeholder becomes `{}` with the argument
      it names, in the order the placeholders appear. */
  function CorrectedNamedBody(text: string, params: seq<TemplateParam>): LegacyTemplates.Body {
    LegacyTemplates.TemplateBody(text, LegacyParams(params))
  }

  /** The scan of `LegacyTemplates.Meaning` over an interleaved text. */
  lemma {:induction false} MeaningInterleave(chunks: seq<string>, hs: seq<string>, params: seq<TemplateParam>, display: string -> string)
    requires |chunks| == |hs| + 1 && PlainChunks(chunks) && Declared(hs, params)
    ensures LegacyTemplates.Meaning(Interleave(chunks, Braced(hs)), LegacyParams(params), display) == Intended(chunks, hs, display)
    decreases |hs|
  {
    if |hs| == 0 {
      assert IndexOf(chunks[0], '{').None?;
      assert Shown(SanitizeAll(hs), display) == [];
    } else {
      assert Declared(hs[1..], params) by {
        forall i | 0 <= i < |hs[1..]| ensures BraceFree(hs[1..][i]) && hs[1..][i] in NameList(params) {
          assert hs[1..][i] == hs[i + 1];
        }
      }
      MeaningInterleave(chunks[1..], hs[1..], params, display);
      MeaningHole(chunks, hs, params, display);
    }
  }

  /** One placeholder of `MeaningInterleave`, given the rest. */
  lemma {:induction false} MeaningHole(chunks: seq<string>, hs: seq<string>, params: seq<TemplateParam>, display: string -> string)
    requires |chunks| == |hs| + 1 && |hs| > 0 && PlainChunks(chunks) && Declared(hs, params)
    requires LegacyTemplates.Meaning(Interleave(chunks[1..], Braced(hs[1..])), LegacyParams(params), display)
             == Intended(chunks[1..], hs[1..], display)
    ensures LegacyTemplates.Meaning(Interleave(chunks, Braced(hs)), LegacyParams(params), display) == Intended(chunks, hs, display)
  {
    var lps := LegacyParams(params);
    var rest := Interleave(chunks[1..], Braced(hs[1..]));
    BracedFront(chunks, hs);
    FindDeclared(hs[0], params);
    LegacyTemplates.MeaningStep(Interleave(chunks, Braced(hs)), chunks[0], hs[0], rest, lps, display);
    IntendedFront(chunks, hs, display);
  }

  lemma {:induction false} BracedFront(chunks: seq<string>, hs: seq<string>)
    requires |chunks| == |hs| + 1 && |hs| > 0
    ensures Interleave(chunks, Braced(hs)) == chunks[0] + "{" + hs[0] + "}" + Interleave(chunks[1..], Braced(hs[1..]))
  {
    assert Braced(hs)[1..] == Braced(hs[1..]);
  }

  lemma {:induction false} IntendedFront(chunks: seq<string>, hs: seq<string>, display: string -> string)
    requires |chunks| == |hs| + 1 && |hs| > 0
    ensures Intended(chunks, hs, display) == chunks[0] + display(Sanitize(hs[0])) + Intended(chunks[1..], hs[1..], display)
  {
    var shown := Shown(SanitizeAll(hs), display);
    assert shown[1..] == Shown(SanitizeAll(hs[1..]), display);
  }

  lemma {:induction false} FindDeclared(name: string, params: seq<TemplateParam>)
    requires name in NameList(params)
    ensures LegacyTemplates.FindParam(LegacyParams(params), name).Some?
  {
    var k :| 0 <= k < |params| && NameList(params)[k] == name;
    assert LegacyParams(params)[k].name == name;
  }

  /** The corrected body returns what the template means, with the
      placeholders in any order and any of them repeated. */
  lemma {:induction false} CorrectedNamedMeaning(chunks: seq<string>, hs: seq<string>, params: seq<TemplateParam>, display: string -> string)
    requires |chunks| == |hs| + 1 && PlainChunks(chunks) && Declared(hs, params)
    ensures LegacyTemplates.EvalBody(CorrectedNamedBody(Interleave(chunks, Braced(hs)), params), display)
            == Some(Intended(chunks, hs, display))
  {
    LegacyTemplates.TemplateBodyMeaning(Interleave(chunks, Braced(hs)), LegacyParams(params), display);
    MeaningInterleave(chunks, hs, params, display);
  }

  /** With the placeholders in another order, the corrected body still
      shows each parameter where it is named: "b a" for `{b} {a}`. */
  lemma {:induction false} CorrectedSwapExample(text: string, params: seq<TemplateParam>, display: string -> string)
    requires text == "{b} {a}"
    requires params == [TemplateParam("a", StringParam), TemplateParam("b", StringParam)]
    requires display("a") == "a" && display("b") == "b"
    ensures LegacyTemplates.EvalBody(CorrectedNamedBody(text, params), display) == Some("b a")
  {
    var chunks := ["", " ", ""];
    SwapText(text);
    assert NameList(params) == ["a", "b"];
    assert Declared(["b", "a"], params);
    CorrectedNamedMeaning(chunks, ["b", "a"], params, display);
    SwapIntended(display);
  }

  lemma {:induction false} SwapIntended(display: string -> string)
    requires display("a") == "a" && display("b") == "b"
    ensures Intended(["", " ", ""], ["b", "a"], display) == "b a"
  {
    SanitizeLetter('a');
    SanitizeLetter('b');
    assert Shown(SanitizeAll(["b", "a"]), display) == ["b", "a"];
    InterleaveThree(["", " ", ""], "b", "a");
    assert "b" + " " + "a" == "b a";
  }

  // ---------------------------------------------------------------------
  // Positional placeholders

  /** A `%index$conv` placeholder. */
  datatype Ref = Ref(index: nat, conv: char)

  function RefText(r: Ref): string {
    "%" + NatToString(r.index) + "$" + [r.conv]
  }

  /** Placeholders whose conversion `emit_rust` replaces: `s` or `d`. */
  predicate Replaced(rs: seq<Ref>) {
    forall i :: 0 <= i < |rs| ==> rs[i].conv == 's' || rs[i].conv == 'd'
  }

  /** Chunks with neither a brace nor a '%'. */
  predicate PlainPositional(chunks: seq<string>) {
    PlainChunks(chunks) && forall i :: 0 <= i < |chunks| ==> '%' !in chunks[i]
  }

  function RefTexts(rs: seq<Ref>): (r: seq<string>)
    ensures |r| == |rs|
    ensures forall i :: 0 <= i < |rs| ==> r[i] == RefText(rs[i])
  {
    seq(|rs|, i requires 0 <= i < |rs| => RefText(rs[i]))
  }

  /** The placeholders after the loop has run for indices 1 to m. */
  function Stage(rs: seq<Ref>, m: nat): (r: seq<string>)
    ensures |r| == |rs|
    ensures forall i :: 0 <= i < |rs| ==> r[i] == (if 1 <= rs[i].index <= m then "{}" else RefText(rs[i]))
  {
    seq(|rs|, i requires 0 <= i < |rs| => if 1 <= rs[i].index <= m then "{}" else RefText(rs[i]))
  }

  /** The same, halfway through round m: `%m$s` done, `%m$d` not yet. */
  function HalfStage(rs: seq<Ref>, m: nat): (r: seq<string>)
    ensures |r| == |rs|
    ensures forall i :: 0 <= i < |rs| ==>
              r[i] == (if 1 <= rs[i].index < m || rs[i] == Ref(m, 's') then "{}" else RefText(rs[i]))
  {
    seq(|rs|, i requires 0 <= i < |rs| => if 1 <= rs[i].index < m || rs[i] == Ref(m, 's') then "{}" else RefText(rs[i]))
  }

  lemma {:induction false} NatToStringInjective(a: nat, b: nat)
    requires NatToString(a) == NatToString(b)
    ensures a == b
  {
    NatToStringValue(a);
    NatToStringValue(b);
  }

  lemma {:induction false} DigitsNoChar(d: string, c: char)
    requires AllDigits(d) && !IsAsciiDigit(c)
    ensures c !in d
  {
  }

  /** Two different placeholders (with `s` or `d`) disagree, and neither
      has a '%' after its first character. */
  lemma {:induction false} RefsDiffer(r: Ref, q: Ref)
    requires r != q && (r.conv == 's' || r.conv == 'd') && (q.conv == 's' || q.conv == 'd')
    ensures Differs(RefText(r), RefText(q)) && '%' !in RefText(r)[1..]
  {
    var x := NatToString(r.index);
    var y := NatToString(q.index);
    assert RefText(r) == ['%'] + x + ("$" + [r.conv]);
    assert RefText(q) == ['%'] + y + ("$" + [q.conv]);
    assert RefText(r)[1..] == x + ("$" + [r.conv]);
    DigitsNoChar(x, '%');
    DigitsNoChar(x, '$');
    DigitsNoChar(y, '$');
    if x != y {
      FramedDiffer('%', x, "$" + [r.conv], y, "$" + [q.conv], '$');
    } else {
      NatToStringInjective(r.index, q.index);
      assert RefText(r)[|x| + 2] == r.conv && RefText(q)[|x| + 2] == q.conv;
    }
  }

  /** A done placeholder `{}` disagrees with every pending one. */
  lemma {:induction false} SlotDiffers(q: Ref)
    ensures Differs("{}", RefText(q)) && '%' !in "{}"[1..]
  {
    assert RefText(q)[0] == '%';
    assert "{}"[1..] == "}";
  }

  /** A hole of either stage facing the pattern of `q`. */
  lemma {:induction false} HoleFacing(h: string, r: Ref, q: Ref)
    requires h == "{}" || h == RefText(r)
    requires (r.conv == 's' || r.conv == 'd') && (q.conv == 's' || q.conv == 'd')
    ensures h == RefText(q) || (Differs(h, RefText(q)) && '%' !in h[1..])
    ensures h == RefText(q) <==> h == RefText(r) && r == q
  {
    SlotDiffers(q);
    if r != q {
      RefsDiffer(r, q);
    }
  }

  /** First half of round m: `%m$s` becomes `{}`. */
  lemma {:induction false} RoundS(chunks: seq<string>, rs: seq<Ref>, m: nat)
    requires |chunks| == |rs| + 1 && PlainPositional(chunks) && Replaced(rs) && m >= 1
    ensures Replace(Interleave(chunks, Stage(rs, m - 1)), RefText(Ref(m, 's')), "{}") == Interleave(chunks, HalfStage(rs, m))
  {
    var pat := RefText(Ref(m, 's'));
    var hs := Stage(rs, m - 1);
    assert pat[0] == '%';
    forall i | 0 <= i < |hs| ensures hs[i] == pat || (Differs(hs[i], pat) && pat[0] !in hs[i][1..]) {
      HoleFacing(hs[i], rs[i], Ref(m, 's'));
    }
    ReplaceInterleave(chunks, hs, pat, "{}");
    forall i | 0 <= i < |hs| ensures Swap(hs, pat, "{}")[i] == HalfStage(rs, m)[i] {
      HoleFacing(hs[i], rs[i], Ref(m, 's'));
    }
    assert Swap(hs, pat, "{}") == HalfStage(rs, m);
  }

  /** Second half of round m: `%m$d` becomes `{}`. */
  lemma {:induction false} RoundD(chunks: seq<string>, rs: seq<Ref>, m: nat)
    requires |chunks| == |rs| + 1 && PlainPositional(chunks) && Replaced(rs) && m >= 1
    ensures Replace(Interleave(chunks, HalfStage(rs, m)), RefText(Ref(m, 'd')), "{}") == Interleave(chunks, Stage(rs, m))
  {
    var pat := RefText(Ref(m, 'd'));
    var hs := HalfStage(rs, m);
    assert pat[0] == '%';
    forall i | 0 <= i < |hs| ensures hs[i] == pat || (Differs(hs[i], pat) && pat[0] !in hs[i][1..]) {
      HoleFacing(hs[i], rs[i], Ref(m, 'd'));
    }
    ReplaceInterleave(chunks, hs, pat, "{}");
    forall i | 0 <= i < |hs| ensures Swap(hs, pat, "{}")[i] == Stage(rs, m)[i] {
      HoleFacing(hs[i], rs[i], Ref(m, 'd'));
    }
    assert Swap(hs, pat, "{}") == Stage(rs, m);
  }

  /** The positional loop for indices 1 to m turns exactly the
      placeholders with those indices into `{}`. */
  lemma {:induction false} PositionalStages(chunks: seq<string>, rs: seq<Ref>, m: nat)
    requires |chunks| == |rs| + 1 && PlainPositional(chunks) && Replaced(rs)
    ensures PositionalFormat(Interleave(chunks, RefTexts(rs)), m) == Interleave(chunks, Stage(rs, m))
    decreases m
  {
    if m == 0 {
      assert Stage(rs, 0) == RefTexts(rs);
    } else {
      PositionalStages(chunks, rs, m - 1);
      RoundS(chunks, rs, m);
      RoundD(chunks, rs, m);
      assert "%" + NatToString(m) + "$s" == RefText(Ref(m, 's'));
      assert "%" + NatToString(m) + "$d" == RefText(Ref(m, 'd'));
    }
  }

  /** The name of the argument a placeholder stands for: `arg<index>`. */
  function RefArgs(rs: seq<Ref>): (r: seq<string>)
    ensures |r| == |rs|
    ensures forall i :: 0 <= i < |rs| ==> r[i] == "arg" + NatToString(rs[i].index)
  {
    seq(|rs|, i requires 0 <= i < |rs| => "arg" + NatToString(rs[i].index))
  }

  /** What a positional template stands for: each `%k$s` or `%k$d`
      shows the k-th argument. */
  function PositionalIntended(chunks: seq<string>, rs: seq<Ref>, display: string -> string): string
    requires |chunks| == |rs| + 1
  {
    Interleave(chunks, Shown(RefArgs(rs), display))
  }

  /** After rounds 1 to n, a placeholder whose index is in that range is done. */
  lemma {:induction false} StageDone(rs: seq<Ref>, n: nat)
    requires forall i :: 0 <= i < |rs| ==> 1 <= rs[i].index <= n
    ensures Stage(rs, n) == Slots(|rs|)
  {
  }

  /** The function `emit_rust` writes for positional placeholders takes
      `arg1` to `argN` in that order, one per placeholder, whatever index
      each placeholder carries. */
  lemma {:induction false} PositionalFills(chunks: seq<string>, rs: seq<Ref>, n: nat, display: string -> string)
    requires |chunks| == |rs| + 1 && PlainPositional(chunks) && Replaced(rs)
    requires forall i :: 0 <= i < |rs| ==> 1 <= rs[i].index <= n
    ensures var f := PositionalFormat(Interleave(chunks, RefTexts(rs)), n);
            UnescapeDebug(EscapeDebug(f)) == Some(f)
            && LegacyTemplates.FormatApply(f, PositionalArgs(n), display)
               == if |rs| == n then Some(Interleave(chunks, Shown(PositionalArgs(n), display))) else None
  {
    PositionalStages(chunks, rs, n);
    StageDone(rs, n);
    EscapeDebugRoundTrip(PositionalFormat(Interleave(chunks, RefTexts(rs)), n));
    ApplySlots(chunks, PositionalArgs(n), display);
  }

  // ---------------------------------------------------------------------
  // The placeholders `count_placeholders` meets

  /** The walk of `count_placeholders` from position `i`, keeping the
      indices it records in the order it meets them, repeats included. */
  function OrderFrom(s: string, i: nat): seq<nat>
    decreases |s| - i
  {
    if i >= |s| then []
    else if s[i] != '%' then OrderFrom(s, i + 1)
    else
      var j := DigitRunEnd(s, i + 1);
      if j > i + 1 && j < |s| && s[j] == '$' then
        FoundSeq(s, i, j) + OrderFrom(s, j + 1)
      else OrderFrom(s, j)
  }

  function FoundSeq(s: string, i: nat, j: nat): seq<nat>
    requires i < j <= |s|
  {
    if j + 1 < |s| && IsSpec(s[j + 1]) && AllDigits(s[i + 1..j]) && DigitsValue(s[i + 1..j]) < UsizeLimit
    then [DigitsValue(s[i + 1..j])] else []
  }

  function Elements(xs: seq<nat>): set<nat> {
    set x | x in xs
  }

  /** The counting scan records the set of what the ordered walk meets. */
  lemma {:induction false} CollectOrder(s: string, i: nat)
    ensures CollectFrom(s, i) == Elements(OrderFrom(s, i))
    decreases |s| - i
  {
    if i < |s| && s[i] != '%' {
      CollectOrder(s, i + 1);
    } else if i < |s| {
      var j := DigitRunEnd(s, i + 1);
      if j > i + 1 && j < |s| && s[j] == '$' {
        CollectOrder(s, j + 1);
        ElementsAppend(FoundSeq(s, i, j), OrderFrom(s, j + 1));
      } else {
        CollectOrder(s, j);
      }
    }
  }

  lemma {:induction false} ElementsAppend(a: seq<nat>, b: seq<nat>)
    ensures Elements(a + b) == Elements(a) + Elements(b)
  {
  }

  /** The run of digits from `k` ends at the first non-digit. */
  lemma {:induction false} DigitRunFixed(s: string, k: nat, e: nat)
    requires k <= e < |s| && !IsAsciiDigit(s[e])
    requires forall m :: k <= m < e ==> IsAsciiDigit(s[m])
    ensures DigitRunEnd(s, k) == e
    decreases e - k
  {
    if k < e {
      DigitRunFixed(s, k + 1, e);
    }
  }

  /** A digit run inside `b` ends at the same place inside `a + b`. */
  lemma {:induction false} DigitRunShift(a: string, b: string, k: nat)
    requires k <= |b|
    ensures DigitRunEnd(a + b, |a| + k) == |a| + DigitRunEnd(b, k)
    decreases |b| - k
  {
    if k < |b| {
      assert (a + b)[|a| + k] == b[k];
      if IsAsciiDigit(b[k]) {
        DigitRunShift(a, b, k + 1);
      }
    }
  }

  lemma {:induction false} FoundShift(a: string, b: string, i: nat, j: nat)
    requires i < j <= |b|
    ensures FoundSeq(a + b, |a| + i, |a| + j) == FoundSeq(b, i, j)
  {
    assert (a + b)[|a| + i + 1..|a| + j] == b[i + 1..j];
    if j + 1 < |b| {
      assert (a + b)[|a| + j + 1] == b[j + 1];
    }
  }

  /** The walk over `a + b` past `a` is the walk over `b`. */
  lemma {:induction false} OrderShift(a: string, b: string, i: nat)
    requires i <= |b|
    ensures OrderFrom(a + b, |a| + i) == OrderFrom(b, i)
    decreases |b| - i
  {
    if i < |b| {
      assert (a + b)[|a| + i] == b[i];
      if b[i] != '%' {
        OrderShift(a, b, i + 1);
      } else {
        DigitRunShift(a, b, i + 1);
        var j := DigitRunEnd(b, i + 1);
        if j > i + 1 && j < |b| && b[j] == '$' {
          OrderShift(a, b, j + 1);
        } else {
          OrderShift(a, b, j);
        }
        OrderShiftPercent(a, b, i, j);
      }
    }
  }

  /** The step of `OrderShift` at a '%', given the walks after it. */
  lemma {:induction false} OrderShiftPercent(a: string, b: string, i: nat, j: nat)
    requires i < |b| && b[i] == '%' && j == DigitRunEnd(b, i + 1)
    requires DigitRunEnd(a + b, |a| + i + 1) == |a| + j
    requires j > i + 1 && j < |b| && b[j] == '$' ==> OrderFrom(a + b, |a| + j + 1) == OrderFrom(b, j + 1)
    requires !(j > i + 1 && j < |b| && b[j] == '$') ==> OrderFrom(a + b, |a| + j) == OrderFrom(b, j)
    ensures OrderFrom(a + b, |a| + i) == OrderFrom(b, i)
  {
    if j > i + 1 && j < |b| && b[j] == '$' {
      OrderShiftFound(a, b, i, j);
    } else {
      OrderShiftSkip(a, b, i, j);
    }
  }

  /** `OrderShiftPercent` when the '%' starts a placeholder. */
  lemma {:induction false} OrderShiftFound(a: string, b: string, i: nat, j: nat)
    requires i < |b| && b[i] == '%' && j == DigitRunEnd(b, i + 1)
    requires DigitRunEnd(a + b, |a| + i + 1) == |a| + j
    requires j > i + 1 && j < |b| && b[j] == '$'
    requires OrderFrom(a + b, |a| + j + 1) == OrderFrom(b, j + 1)
    ensures OrderFrom(a + b, |a| + i) == OrderFrom(b, i)
  {
    var s := a + b;
    assert s[|a| + i] == '%' && s[|a| + j] == '$' by {
      assert s[|a| + i] == b[i] && s[|a| + j] == b[j];
    }
    assert FoundSeq(s, |a| + i, |a| + j) == FoundSeq(b, i, j) by {
      FoundShift(a, b, i, j);
    }
    PlaceholdersAgree(s, b, |a| + i, i, |a| + j, j);
  }

  /** Two walks that meet the same placeholder, and agree after it,
      agree from its '%'. */
  lemma {:induction false} PlaceholdersAgree(s: string, t: string, p: nat, q: nat, js: nat, jt: nat)
    requires p < |s| && s[p] == '%' && js == DigitRunEnd(s, p + 1)
    requires js > p + 1 && js < |s| && s[js] == '$'
    requires q < |t| && t[q] == '%' && jt == DigitRunEnd(t, q + 1)
    requires jt > q + 1 && jt < |t| && t[jt] == '$'
    requires FoundSeq(s, p, js) == FoundSeq(t, q, jt)
    requires OrderFrom(s, js + 1) == OrderFrom(t, jt + 1)
    ensures OrderFrom(s, p) == OrderFrom(t, q)
  {
    OrderAtPlaceholder(s, p, js);
    OrderAtPlaceholder(t, q, jt);
  }

  /** At a placeholder the walk records what it finds and goes on after
      the '$'. */
  lemma {:induction false} OrderAtPlaceholder(s: string, i: nat, j: nat)
    requires i < |s| && s[i] == '%' && j == DigitRunEnd(s, i + 1)
    requires j > i + 1 && j < |s| && s[j] == '$'
    ensures OrderFrom(s, i) == FoundSeq(s, i, j) + OrderFrom(s, j + 1)
  {
  }

  /** `OrderShiftPercent` when the '%' starts no placeholder. */
  lemma {:induction false} OrderShiftSkip(a: string, b: string, i: nat, j: nat)
    requires i < |b| && b[i] == '%' && j == DigitRunEnd(b, i + 1)
    requires DigitRunEnd(a + b, |a| + i + 1) == |a| + j
    requires !(j > i + 1 && j < |b| && b[j] == '$')
    requires OrderFrom(a + b, |a| + j) == OrderFrom(b, j)
    ensures OrderFrom(a + b, |a| + i) == OrderFrom(b, i)
  {
    var s := a + b;
    assert s[|a| + i] == '%';
    if j < |b| {
      assert s[|a| + j] == b[j];
    }
  }

  /** Text without '%' adds nothing to the walk. */
  lemma {:induction false} OrderPlain(s: string, i: nat, e: nat)
    requires i <= e <= |s|
    requires forall k :: i <= k < e ==> s[k] != '%'
    ensures OrderFrom(s, i) == OrderFrom(s, e)
    decreases e - i
  {
    if i < e {
      OrderPlain(s, i + 1, e);
    }
  }

  /** The walk over a placeholder records its index and moves past it. */
  lemma {:induction false} OrderRef(r: Ref, rest: string)
    requires (r.conv == 's' || r.conv == 'd') && r.index < UsizeLimit
    ensures OrderFrom(RefText(r) + rest, 0) == [r.index] + OrderFrom(rest, 0)
  {
    var h := RefText(r);
    var d := NatToString(r.index);
    var s := h + rest;
    var j := |d| + 1;
    assert s[0] == '%' && s[j] == '$' && s[j + 1] == r.conv;
    assert s[1..j] == d;
    forall m | 1 <= m < j ensures IsAsciiDigit(s[m]) {
      assert s[m] == d[m - 1];
    }
    DigitRunFixed(s, 1, j);
    NatToStringValue(r.index);
    assert FoundSeq(s, 0, j) == [r.index];
    OrderPlain(s, j + 1, |h|);
    OrderShift(h, rest, 0);
  }

  function Indices(rs: seq<Ref>): (r: seq<nat>)
    ensures |r| == |rs|
    ensures forall i :: 0 <= i < |rs| ==> r[i] == rs[i].index
  {
    seq(|rs|, i requires 0 <= i < |rs| => rs[i].index)
  }

  predicate Fits(rs: seq<Ref>) {
    forall i :: 0 <= i < |rs| ==> rs[i].index < UsizeLimit
  }

  /** Over an interleaved text the walk meets the placeholders in order. */
  lemma {:induction false} OrderInterleave(chunks: seq<string>, rs: seq<Ref>)
    requires |chunks| == |rs| + 1 && PlainPositional(chunks) && Replaced(rs) && Fits(rs)
    ensures OrderFrom(Interleave(chunks, RefTexts(rs)), 0) == Indices(rs)
    decreases |rs|
  {
    if |rs| == 0 {
      var s := Interleave(chunks, RefTexts(rs));
      OrderPlain(s, 0, |s|);
    } else {
      OrderInterleave(chunks[1..], rs[1..]);
      OrderStep(chunks, rs);
    }
  }

  /** One placeholder of `OrderInterleave`, given the rest. */
  lemma {:induction false} OrderStep(chunks: seq<string>, rs: seq<Ref>)
    requires |chunks| == |rs| + 1 && |rs| > 0 && PlainPositional(chunks) && Replaced(rs) && Fits(rs)
    requires OrderFrom(Interleave(chunks[1..], RefTexts(rs[1..])), 0) == Indices(rs[1..])
    ensures OrderFrom(Interleave(chunks, RefTexts(rs)), 0) == Indices(rs)
  {
    var c := chunks[0];
    var h := RefText(rs[0]);
    var rest := Interleave(chunks[1..], RefTexts(rs[1..]));
    var s := c + (h + rest);
    assert RefTexts(rs)[1..] == RefTexts(rs[1..]);
    assert Interleave(chunks, RefTexts(rs)) == s;
    forall k | 0 <= k < |c| ensures s[k] != '%' {
      assert s[k] == c[k];
    }
    OrderPlain(s, 0, |c|);
    OrderShift(c, h + rest, 0);
    OrderRef(rs[0], rest);
    assert Indices(rs) == [rs[0].index] + Indices(rs[1..]);
  }

  /** Distinct elements are as many as the sequence is long. */
  lemma {:induction false} DistinctCard(xs: seq<nat>)
    requires forall i, j :: 0 <= i < j < |xs| ==> xs[i] != xs[j]
    ensures |Elements(xs)| == |xs|
  {
    if |xs| > 0 {
      assert Elements(xs) == {xs[0]} + Elements(xs[1..]);
      assert xs[0] !in Elements(xs[1..]);
      DistinctCard(xs[1..]);
    }
  }

  /** `count_placeholders` over an interleaved text counts the distinct
      indices of its placeholders. */
  lemma {:induction false} CountInterleave(chunks: seq<string>, rs: seq<Ref>)
    requires |chunks| == |rs| + 1 && PlainPositional(chunks) && Replaced(rs) && Fits(rs)
    ensures CountPlaceholders(Interleave(chunks, RefTexts(rs))) == |Elements(Indices(rs))|
  {
    OrderInterleave(chunks, rs);
    CollectOrder(Interleave(chunks, RefTexts(rs)), 0);
  }

  // ---------------------------------------------------------------------
  // Positional placeholders: what the function returns

  /** When the placeholders are `%1$…` to `%n$…` in that order, the
      function `emit_rust` writes takes n arguments and returns what the
      template means. */
  lemma {:induction false} PositionalInOrderMeaning(key: ResourceKey, node: ResourceNode, indent: nat, chunks: seq<string>, rs: seq<Ref>, display: string -> string)
    requires node.value.TemplateValue? && |node.value.params| == 0
    requires |chunks| == |rs| + 1 && 0 < |rs| < UsizeLimit && PlainPositional(chunks) && Replaced(rs)
    requires forall i :: 0 <= i < |rs| ==> rs[i].index == i + 1
    requires node.value.template == Interleave(chunks, RefTexts(rs))
    ensures var n := |rs|;
            var f := PositionalFormat(node.value.template, n);
            CountPlaceholders(node.value.template) == n
            && Emit(key, node, indent) == Some(FnItem(indent, Sanitize(key.name), PositionalParams(n), f, PositionalArgs(n)))
            && UnescapeDebug(EscapeDebug(f)) == Some(f)
            && LegacyTemplates.FormatApply(f, PositionalArgs(n), display) == Some(PositionalIntended(chunks, rs, display))
  {
    var n := |rs|;
    CountInterleave(chunks, rs);
    DistinctCard(Indices(rs));
    PositionalFills(chunks, rs, n, display);
    assert PositionalArgs(n) == RefArgs(rs);
  }

  /** Two placeholders, the first and the second with any indices. */
  lemma {:induction false} TwoRefsText(t: string, a: nat, b: nat)
    requires 0 < a < 10 && 0 < b < 10
    requires t == ['%', DigitChar(a), '$', 's', ' ', '%', DigitChar(b), '$', 's']
    ensures t == Interleave(["", " ", ""], RefTexts([Ref(a, 's'), Ref(b, 's')]))
  {
    assert NatToString(a) == [DigitChar(a)] && NatToString(b) == [DigitChar(b)];
    var hs := RefTexts([Ref(a, 's'), Ref(b, 's')]);
    assert hs[0] == ['%', DigitChar(a), '$', 's'] && hs[1] == ['%', DigitChar(b), '$', 's'];
    InterleaveThree(["", " ", ""], hs[0], hs[1]);
    assert hs == [hs[0], hs[1]];
  }

  lemma {:induction false} TwoRefsCount(chunks: seq<string>, a: nat, b: nat)
    requires chunks == ["", " ", ""] && 0 < a < 10 && 0 < b < 10
    ensures CountPlaceholders(Interleave(chunks, RefTexts([Ref(a, 's'), Ref(b, 's')]))) == if a == b then 1 else 2
  {
    var rs := [Ref(a, 's'), Ref(b, 's')];
    CountInterleave(chunks, rs);
    assert Indices(rs) == [a, b];
    assert Elements([a, b]) == {a, b};
  }

  /** `%2$s %1$s`: the function returns the first argument, then the
      second, where the template means the second, then the first. */
  lemma {:induction false} PositionalSwapExample(key: ResourceKey, node: ResourceNode, indent: nat, display: string -> string)
    requires node.value == TemplateValue("%2$s %1$s", [])
    ensures var f := PositionalFormat(node.value.template, 2);
            CountPlaceholders(node.value.template) == 2
            && Emit(key, node, indent) == Some(FnItem(indent, Sanitize(key.name), PositionalParams(2), f, PositionalArgs(2)))
            && UnescapeDebug(EscapeDebug(f)) == Some(f)
            && LegacyTemplates.FormatApply(f, PositionalArgs(2), display)
               == Some(display("arg1") + " " + display("arg2"))
            && PositionalIntended(["", " ", ""], [Ref(2, 's'), Ref(1, 's')], display) == display("arg2") + " " + display("arg1")
  {
    var t := node.value.template;
    assert DigitChar(2) == '2' && DigitChar(1) == '1';
    TwoRefsText(t, 2, 1);
    TwoRefsCount(["", " ", ""], 2, 1);
    SwapFormat(t, display);
  }

  lemma {:induction false} SwapFormat(t: string, display: string -> string)
    requires t == Interleave(["", " ", ""], RefTexts([Ref(2, 's'), Ref(1, 's')]))
    ensures var f := PositionalFormat(t, 2);
            UnescapeDebug(EscapeDebug(f)) == Some(f)
            && LegacyTemplates.FormatApply(f, PositionalArgs(2), display) == Some(display("arg1") + " " + display("arg2"))
            && PositionalIntended(["", " ", ""], [Ref(2, 's'), Ref(1, 's')], display) == display("arg2") + " " + display("arg1")
  {
    var chunks := ["", " ", ""];
    var rs := [Ref(2, 's'), Ref(1, 's')];
    PositionalFills(chunks, rs, 2, display);
    ArgNames();
    assert Shown(PositionalArgs(2), display) == [display("arg1"), display("arg2")];
    assert Shown(RefArgs(rs), display) == [display("arg2"), display("arg1")];
    InterleaveThree(chunks, display("arg1"), display("arg2"));
    InterleaveThree(chunks, display("arg2"), display("arg1"));
  }

  lemma {:induction false} ArgNames()
    ensures "arg" + NatToString(1) == "arg1" && "arg" + NatToString(2) == "arg2"
    ensures PositionalArgs(1) == ["arg1"] && PositionalArgs(2) == ["arg1", "arg2"]
    ensures RefArgs([Ref(2, 's'), Ref(1, 's')]) == ["arg2", "arg1"]
    ensures RefArgs([Ref(1, 's'), Ref(1, 's')]) == ["arg1", "arg1"]
  {
    var one := NatToString(1);
    var two := NatToString(2);
    assert one == "1" && two == "2";
    assert "arg" + one == "arg1" && "arg" + two == "arg2";
    assert PositionalArgs(1)[0] == "arg1";
    assert PositionalArgs(2)[0] == "arg1" && PositionalArgs(2)[1] == "arg2";
    assert RefArgs([Ref(2, 's'), Ref(1, 's')])[0] == "arg2" && RefArgs([Ref(2, 's'), Ref(1, 's')])[1] == "arg1";
    assert RefArgs([Ref(1, 's'), Ref(1, 's')])[0] == "arg1" && RefArgs([Ref(1, 's'), Ref(1, 's')])[1] == "arg1";
  }

  /** `%1$s %1$s`: one index, so one argument for two `{}`, and
      `format!` rejects the call. */
  lemma {:induction false} PositionalRepeatedBreaks(key: ResourceKey, node: ResourceNode, indent: nat, display: string -> string)
    requires node.value == TemplateValue("%1$s %1$s", [])
    ensures var f := PositionalFormat(node.value.template, 1);
            CountPlaceholders(node.value.template) == 1
            && Emit(key, node, indent) == Some(FnItem(indent, Sanitize(key.name), PositionalParams(1), f, PositionalArgs(1)))
            && LegacyTemplates.FormatApply(f, PositionalArgs(1), display).None?
  {
    var t := node.value.template;
    assert DigitChar(1) == '1';
    TwoRefsText(t, 1, 1);
    TwoRefsCount(["", " ", ""], 1, 1);
    RepeatedFormat(t, display);
  }

  lemma {:induction false} RepeatedFormat(t: string, display: string -> string)
    requires t == Interleave(["", " ", ""], RefTexts([Ref(1, 's'), Ref(1, 's')]))
    ensures LegacyTemplates.FormatApply(PositionalFormat(t, 1), PositionalArgs(1), display).None?
  {
    PositionalFills(["", " ", ""], [Ref(1, 's'), Ref(1, 's')], 1, display);
  }

  // ---------------------------------------------------------------------
  // Positional placeholders, corrected

  /** The corrected arguments: one per placeholder, the one its index
      names, in the order the placeholders appear. */
  function AppearanceArgs(text: string): (r: seq<string>)
    ensures |r| == |OrderFrom(text, 0)|
  {
    var order := OrderFrom(text, 0);
    seq(|order|, i requires 0 <= i < |order| => "arg" + NatToString(order[i]))
  }

  /** With the corrected arguments, the function returns what the
      template means, for placeholders in any order and any of them
      repeated, as long as their indices are 1 to the count. */
  lemma {:induction false} CorrectedPositionalMeaning(chunks: seq<string>, rs: seq<Ref>, display: string -> string)
    requires |chunks| == |rs| + 1 && PlainPositional(chunks) && Replaced(rs) && Fits(rs)
    requires var n := CountPlaceholders(Interleave(chunks, RefTexts(rs)));
             forall i :: 0 <= i < |rs| ==> 1 <= rs[i].index <= n
    ensures var text := Interleave(chunks, RefTexts(rs));
            var f := PositionalFormat(text, CountPlaceholders(text));
            UnescapeDebug(EscapeDebug(f)) == Some(f)
            && LegacyTemplates.FormatApply(f, AppearanceArgs(text), display) == Some(PositionalIntended(chunks, rs, display))
  {
    var text := Interleave(chunks, RefTexts(rs));
    var n := CountPlaceholders(text);
    PositionalStages(chunks, rs, n);
    StageDone(rs, n);
    EscapeDebugRoundTrip(PositionalFormat(text, n));
    OrderInterleave(chunks, rs);
    assert AppearanceArgs(text) == RefArgs(rs);
    ApplySlots(chunks, RefArgs(rs), display);
  }

  /** `%2$s %1$s` with the corrected arguments shows the second
      argument, then the first. */
  lemma {:induction false} CorrectedSwapPositional(t: string, display: string -> string)
    requires t == "%2$s %1$s"
    ensures LegacyTemplates.FormatApply(PositionalFormat(t, 2), AppearanceArgs(t), display) == Some(display("arg2") + " " + display("arg1"))
  {
    assert DigitChar(2) == '2' && DigitChar(1) == '1';
    CorrectedTwoRefs(t, 2, 1, display);
    ArgNames();
  }

  /** `%1$s %1$s` with the corrected arguments shows the first argument
      twice. */
  lemma {:induction false} CorrectedRepeatedPositional(t: string, display: string -> string)
    requires t == "%1$s %1$s"
    ensures LegacyTemplates.FormatApply(PositionalFormat(t, 1), AppearanceArgs(t), display) == Some(display("arg1") + " " + display("arg1"))
  {
    assert DigitChar(1) == '1';
    CorrectedTwoRefs(t, 1, 1, display);
    ArgNames();
  }

  lemma {:induction false} CorrectedTwoRefs(t: string, a: nat, b: nat, display: string -> string)
    requires 0 < a < 10 && 0 < b < 10 && (a == b ==> a == 1) && (a != b ==> a + b == 3)
    requires t == ['%', DigitChar(a), '$', 's', ' ', '%', DigitChar(b), '$', 's']
    ensures var f := PositionalFormat(t, if a == b then 1 else 2);
            LegacyTemplates.FormatApply(f, AppearanceArgs(t), display)
              == Some(display("arg" + NatToString(a)) + " " + display("arg" + NatToString(b)))
  {
    var chunks := ["", " ", ""];
    var rs := [Ref(a, 's'), Ref(b, 's')];
    TwoRefsText(t, a, b);
    TwoRefsCount(chunks, a, b);
    CorrectedPositionalMeaning(chunks, rs, display);
    assert Shown(RefArgs(rs), display) == [display("arg" + NatToString(a)), display("arg" + NatToString(b))];
    InterleaveThree(chunks, display("arg" + NatToString(a)), display("arg" + NatToString(b)));
  }
}
