/** The values of the legacy pipeline (codegen/types.rs) and the
    classification of a string resource's text into a plain string, a
    reference `@type/key`, or an interpolated string mixing text and
    references. */
module LegacyTypes {
  import opened Wrappers
  import opened Text

  /** A piece of an interpolated string. */
  datatype Part = TextPart(text: string) | RefPart(resourceType: string, key: string)

  datatype ParamType = StringParam | IntParam | FloatParam | BoolParam

  datatype TemplateParameter = TemplateParameter(name: string, paramType: ParamType)

  /** A template string with `{param}` placeholders and its parameters in
      declaration order. */
  datatype Template = Template(template: string, parameters: seq<TemplateParameter>)

  /** `i64`. */
  type I64 = x: int | -0x8000_0000_0000_0000 <= x < 0x8000_0000_0000_0000

  /** An `f64`, carried by its bit pattern and never interpreted. */
  datatype F64 = F64(bits: nat)

  /** `ResourceValue`. */
  datatype Value =
    | StringValue(str: string)
    | IntValue(intValue: I64)
    | FloatValue(floatValue: F64)
    | BoolValue(boolValue: bool)
    | ColorValue(color: string)
    | UrlValue(url: string)
    | DimensionValue(dimension: string)
    | StringArray(strings: seq<string>)
    | IntArray(ints: seq<I64>)
    | FloatArray(floats: seq<F64>)
    | Reference(resourceType: string, key: string)
    | Interpolated(parts: seq<Part>)
    | TemplateValue(template: Template)

  /** `type_name`: the module a value belongs to; a reference names the
      type it points at, and interpolations and templates are strings. */
  function TypeName(v: Value): string {
    match v
    case StringValue(_) => "string"
    case IntValue(_) => "int"
    case FloatValue(_) => "float"
    case BoolValue(_) => "bool"
    case ColorValue(_) => "color"
    case UrlValue(_) => "url"
    case DimensionValue(_) => "dimension"
    case StringArray(_) => "string_array"
    case IntArray(_) => "int_array"
    case FloatArray(_) => "float_array"
    case Reference(t, _) => t
    case Interpolated(_) => "string"
    case TemplateValue(_) => "string"
  }

  /** Every value that is not a reference has the name of one of the
      modules the flat module re-exports. */
  lemma {:induction false} TypeNameIsModule(v: Value)
    requires !v.Reference?
    ensures TypeName(v) in ["string", "int", "float", "bool", "color", "url", "dimension", "string_array", "int_array", "float_array"]
    ensures v.StringValue? || v.Interpolated? || v.TemplateValue? <==> TypeName(v) == "string"
  {
  }

  // ---------------------------------------------------------------------
  // Interpolated strings

  /** The characters a reference key may hold. */
  predicate IsKeyChar(c: char) {
    IsAlphanumeric(c) || c == '_' || c == '/'
  }

  /** The end of the reference key at the start of `s`: the first
      character that is not a key character. */
  function KeyEnd(s: string): (r: nat)
    ensures r <= |s|
    ensures forall i :: 0 <= i < r ==> IsKeyChar(s[i])
    ensures r < |s| ==> !IsKeyChar(s[r])
  {
    if |s| == 0 || !IsKeyChar(s[0]) then 0 else 1 + KeyEnd(s[1..])
  }

  /** The length of the key at the start of `s`: up to `KeyEnd`, less a
      trailing '/', which is left to the text that follows. */
  function KeyLength(s: string): (n: nat)
    ensures n <= KeyEnd(s) <= n + 1
    ensures n < KeyEnd(s) <==> KeyEnd(s) > 0 && s[KeyEnd(s) - 1] == '/'
  {
    var end := KeyEnd(s);
    if end > 0 && s[end - 1] == '/' then end - 1 else end
  }

  /** The text a part stands for. */
  function PartText(p: Part): string {
    match p
    case TextPart(t) => t
    case RefPart(ty, k) => "@" + ty + "/" + k
  }

  function Render(parts: seq<Part>): string {
    if |parts| == 0 then [] else PartText(parts[0]) + Render(parts[1..])
  }

  /** Text parts are never empty and keys hold only key characters. */
  predicate GoodPart(p: Part) {
    match p
    case TextPart(t) => t != []
    case RefPart(_, k) => forall j :: 0 <= j < |k| ==> IsKeyChar(k[j])
  }

  predicate GoodParts(ps: seq<Part>) {
    forall i :: 0 <= i < |ps| ==> GoodPart(ps[i])
  }

  lemma {:induction false} GoodPartsJoin(a: seq<Part>, p: Part, b: seq<Part>)
    requires GoodParts(a) && GoodPart(p) && GoodParts(b)
    ensures GoodParts(a + [p] + b)
  {
    var r := a + [p] + b;
    forall i | 0 <= i < |r| ensures GoodPart(r[i]) {
      if i < |a| {
        assert r[i] == a[i];
      } else if i > |a| {
        assert r[i] == b[i - |a| - 1];
      }
    }
  }

  /** The scanning loop of `parse_string_value`. At each '@', the text
      before it is a text part; the reference type runs to the next '/'
      anywhere after the '@', and the key is the run of key characters
      after it, less one trailing '/', which is left to the text that
      follows. An '@' with no later '/' is the text "@". */
  function Parts(s: string): (r: seq<Part>)
    ensures GoodParts(r)
    ensures '@' in s ==> |r| > 0
    decreases |s|
  {
    if |s| == 0 then []
    else match IndexOf(s, '@')
      case None => [TextPart(s)]
      case Some(at) =>
        var before := Before(s, at);
        var t := s[at + 1..];
        match IndexOf(t, '/')
        case None =>
          var rest := Parts(t);
          GoodPartsJoin(before, TextPart("@"), rest);
          before + [TextPart("@")] + rest
        case Some(slash) =>
          var after := t[slash + 1..];
          var consumed := KeyLength(after);
          var ref := RefPart(t[..slash], after[..consumed]);
          var rest := Parts(after[consumed..]);
          assert GoodPart(ref);
          GoodPartsJoin(before, ref, rest);
          before + [ref] + rest
  }

  lemma {:induction false} RenderAppend(a: seq<Part>, b: seq<Part>)
    ensures Render(a + b) == Render(a) + Render(b)
  {
    if |a| > 0 {
      assert (a + b)[1..] == a[1..] + b;
      RenderAppend(a[1..], b);
    } else {
      assert a + b == b;
    }
  }

  lemma {:induction false} RenderSingle(p: Part)
    ensures Render([p]) == PartText(p)
  {
    assert [p][1..] == [];
    var t := PartText(p);
    assert Render([p]) == t + Render([]);
    assert t + [] == t;
  }

  lemma {:induction false} RenderThree(a: seq<Part>, p: Part, b: seq<Part>)
    ensures Render(a + [p] + b) == Render(a) + PartText(p) + Render(b)
  {
    RenderAppend(a + [p], b);
    RenderAppend(a, [p]);
    RenderSingle(p);
  }

  lemma {:induction false} SplitAround<T>(s: seq<T>, i: nat)
    requires i < |s|
    ensures s == s[..i] + [s[i]] + s[i + 1..]
  {
  }

  lemma {:induction false} SplitAt<T>(s: seq<T>, i: nat)
    requires i <= |s|
    ensures s == s[..i] + s[i..]
  {
  }

  /** Concatenating the parts gives back the string: no character is lost
      or added. */
  lemma {:induction false} PartsRender(s: string)
    ensures Render(Parts(s)) == s
    decreases |s|
  {
    if |s| > 0 {
      match IndexOf(s, '@')
      case None =>
        RenderSingle(TextPart(s));
      case Some(at) =>
        var t := s[at + 1..];
        match IndexOf(t, '/')
        case None =>
          PartsRender(t);
          RenderAtSign(s, at);
        case Some(slash) =>
          var after := t[slash + 1..];
          var consumed := KeyLength(after);
          PartsRender(after[consumed..]);
          RenderReference(s, at, slash, consumed);
    }
  }

  /** The text parts before an '@'. */
  function Before(s: string, at: nat): (r: seq<Part>)
    requires at <= |s|
    ensures Render(r) == s[..at]
  {
    if at > 0 then
      RenderSingle(TextPart(s[..at]));
      [TextPart(s[..at])]
    else []
  }

  lemma {:induction false} RenderAtSign(s: string, at: nat)
    requires IndexOf(s, '@') == Some(at) && IndexOf(s[at + 1..], '/').None?
    requires Render(Parts(s[at + 1..])) == s[at + 1..]
    ensures Render(Parts(s)) == s
  {
    var t := s[at + 1..];
    assert Parts(s) == Before(s, at) + [TextPart("@")] + Parts(t);
    RenderThree(Before(s, at), TextPart("@"), Parts(t));
    SplitAround(s, at);
  }

  /** One step of the scan at a reference. */
  lemma {:induction false} PartsAtReference(s: string, at: nat, slash: nat, consumed: nat)
    requires IndexOf(s, '@') == Some(at) && IndexOf(s[at + 1..], '/') == Some(slash)
    requires consumed == KeyLength(s[at + 1..][slash + 1..])
    ensures var t := s[at + 1..];
            var after := t[slash + 1..];
            Parts(s) == Before(s, at) + [RefPart(t[..slash], after[..consumed])] + Parts(after[consumed..])
  {
    var t := s[at + 1..];
    var after := t[slash + 1..];
    assert Parts(s) == Before(s, at) + [RefPart(t[..slash], after[..consumed])] + Parts(after[consumed..]);
  }

  lemma {:induction false} RenderReference(s: string, at: nat, slash: nat, consumed: nat)
    requires IndexOf(s, '@') == Some(at) && IndexOf(s[at + 1..], '/') == Some(slash)
    requires consumed == KeyLength(s[at + 1..][slash + 1..])
    requires Render(Parts(s[at + 1..][slash + 1..][consumed..])) == s[at + 1..][slash + 1..][consumed..]
    ensures Render(Parts(s)) == s
  {
    var t := s[at + 1..];
    var after := t[slash + 1..];
    var ref := RefPart(t[..slash], after[..consumed]);
    PartsAtReference(s, at, slash, consumed);
    RenderThree(Before(s, at), ref, Parts(after[consumed..]));
    SplitAround(s, at);
    SplitAround(t, slash);
    SplitAt(after, consumed);
    Reassemble(s[..at], t[..slash], after[..consumed], after[consumed..]);
  }

  lemma {:induction false} Reassemble(a: string, ty: string, key: string, rest: string)
    ensures a + ("@" + ty + "/" + key) + rest == a + "@" + (ty + "/" + (key + rest))
  {
  }

  /** A reference after some text and before text that neither continues
      the key nor holds another '@' gives text, reference, text. */
  lemma {:induction false} InterpolatedShape(a: string, ty: string, key: string, rest: string)
    requires '@' !in a && '/' !in ty && '@' !in rest
    requires forall i :: 0 <= i < |key| ==> IsKeyChar(key[i])
    requires |key| > 0 && key[|key| - 1] != '/'
    requires |rest| > 0 && !IsKeyChar(rest[0])
    ensures Parts(a + "@" + ty + "/" + key + rest) ==
              (if |a| > 0 then [TextPart(a)] else []) + [RefPart(ty, key), TextPart(rest)]
  {
    var s := a + "@" + ty + "/" + key + rest;
    assert s == a + "@" + ty + "/" + (key + rest);
    ReferenceScan(s, a, ty, key + rest);
    KeyEndStops(key, rest);
    ReferenceStep(s, a, ty, key, rest);
    assert Parts(rest) == [TextPart(rest)];
    var b: seq<Part> := if |a| > 0 then [TextPart(a)] else [];
    assert Before(s, |a|) == b;
    AppendTwo(b, RefPart(ty, key), TextPart(rest));
  }

  /** The scan step at a reference whose key ends before `rest`. */
  lemma {:induction false} ReferenceStep(s: string, a: string, ty: string, key: string, rest: string)
    requires IndexOf(s, '@') == Some(|a|)
    requires IndexOf(s[|a| + 1..], '/') == Some(|ty|)
    requires s[|a| + 1..][..|ty|] == ty && s[|a| + 1..][|ty| + 1..] == key + rest
    requires KeyEnd(key + rest) == |key| && |key| > 0 && key[|key| - 1] != '/'
    ensures Parts(s) == Before(s, |a|) + [RefPart(ty, key)] + Parts(rest)
  {
    var after := key + rest;
    assert after[|key| - 1] == key[|key| - 1];
    KeyLengthWhole(after, |key|);
    assert after[..|key|] == key && after[|key|..] == rest;
    PartsAtReference(s, |a|, |ty|, |key|);
  }

  /** A key that does not end in '/' is taken whole. */
  lemma {:induction false} KeyLengthWhole(s: string, n: nat)
    requires KeyEnd(s) == n && n > 0 && s[n - 1] != '/'
    ensures KeyLength(s) == n
  {
  }

  /** Where the scan finds the '@' and the '/' of a reference. */
  lemma {:induction false} ReferenceScan(s: string, a: string, ty: string, after: string)
    requires '@' !in a && '/' !in ty
    requires s == a + "@" + ty + "/" + after
    ensures IndexOf(s, '@') == Some(|a|) && s[..|a|] == a
    ensures IndexOf(s[|a| + 1..], '/') == Some(|ty|)
    ensures s[|a| + 1..][..|ty|] == ty && s[|a| + 1..][|ty| + 1..] == after
  {
    var t := ty + "/" + after;
    assert s == a + ['@'] + t;
    IndexOfAfter(a, '@', t);
    assert s[|a| + 1..] == t;
    assert t == ty + ['/'] + after;
    IndexOfAfter(ty, '/', after);
  }

  lemma {:induction false} AppendTwo<T>(b: seq<T>, x: T, y: T)
    ensures b + [x] + [y] == b + [x, y]
  {
  }

  lemma {:induction false} KeyEndStops(key: string, rest: string)
    requires forall i :: 0 <= i < |key| ==> IsKeyChar(key[i])
    requires |rest| > 0 && !IsKeyChar(rest[0])
    ensures KeyEnd(key + rest) == |key|
  {
    if |key| > 0 {
      assert (key + rest)[1..] == key[1..] + rest;
      KeyEndStops(key[1..], rest);
    } else {
      assert key + rest == rest;
    }
  }

  // ---------------------------------------------------------------------
  // parse_string_value

  /** A whole-string reference: it starts with the only '@', has no
      space, and has a '/' after the '@'. */
  predicate IsPureReference(s: string) {
    |s| > 0 && s[0] == '@' && ' ' !in s && Count(s, '@') == 1 && '/' in s[1..]
  }

  /** `parse_string_value`. */
  function ParseStringValue(s: string): (r: Value)
    ensures r.StringValue? || r.Reference? || r.Interpolated?
    ensures r.Reference? <==> IsPureReference(s)
    ensures r.Reference? ==> '/' !in r.resourceType && s == "@" + r.resourceType + "/" + r.key
    ensures r.StringValue? <==> '@' !in s
    ensures r.StringValue? ==> r.str == s
    ensures r.Interpolated? ==> |r.parts| > 0 && r.parts == Parts(s)
  {
    if |s| > 0 && s[0] == '@' && ' ' !in s && Count(s, '@') == 1 && IndexOf(s[1..], '/').Some? then
      var i := IndexOf(s[1..], '/').value;
      assert s == "@" + s[1..][..i] + "/" + s[1..][i + 1..];
      Reference(s[1..][..i], s[1..][i + 1..])
    else if '@' in s then
      var parts := Parts(s);
      if |parts| > 0 then Interpolated(parts) else StringValue(s)
    else StringValue(s)
  }

  /** The text a classified value came from. */
  function SourceText(v: Value): string
    requires v.StringValue? || v.Reference? || v.Interpolated?
  {
    match v
    case StringValue(s) => s
    case Reference(ty, k) => "@" + ty + "/" + k
    case Interpolated(parts) => Render(parts)
  }

  /** Classification loses nothing: the text can be rebuilt from any
      classified value. */
  lemma {:induction false} ParseStringValueRoundTrip(s: string)
    ensures SourceText(ParseStringValue(s)) == s
  {
    if ParseStringValue(s).Interpolated? {
      PartsRender(s);
    }
  }

  /** Text with a space and an '@' is always an interpolation. */
  lemma {:induction false} SpacedIsInterpolated(s: string)
    requires ' ' in s && '@' in s
    ensures ParseStringValue(s) == Interpolated(Parts(s))
  {
  }

  /** "Welcome @string/app_name!" is text, a reference to
      `string/app_name`, and text. */
  lemma {:induction false} WelcomeExample()
    ensures ParseStringValue("Welcome @string/app_name!") ==
              Interpolated([TextPart("Welcome "), RefPart("string", "app_name"), TextPart("!")])
  {
    var s := "Welcome @string/app_name!";
    assert s[7] == ' ' && s[8] == '@';
    SpacedIsInterpolated(s);
    WelcomeText();
    WelcomeParts(s);
  }

  lemma {:induction false} WelcomeText()
    ensures "Welcome @string/app_name!" == "Welcome " + "@" + "string" + "/" + "app_name" + "!"
  {
  }

  lemma {:induction false} WelcomeParts(s: string)
    requires s == "Welcome " + "@" + "string" + "/" + "app_name" + "!"
    ensures Parts(s) == [TextPart("Welcome "), RefPart("string", "app_name"), TextPart("!")]
  {
    AppNameIsKey();
    InterpolatedShape("Welcome ", "string", "app_name", "!");
  }

  lemma {:induction false} AppNameIsKey()
    ensures forall i :: 0 <= i < |"app_name"| ==> IsKeyChar("app_name"[i])
  {
  }
}
