/** The number handler (generator/ir/types/number.rs): classification of a
    number literal as an i64, an f64, an arbitrary-precision decimal or an
    explicitly typed constant, and the Rust it emits. Float parsing and
    formatting and big-decimal validation belong to libraries; they enter
    as the `NumberSyntax` parameter. */
module Number {
  import opened Wrappers
  import opened Text
  import opened Identifiers
  import opened Model
  import opened RustCode
  import Ast

  /** What the float and big-decimal libraries decide about a literal:
      whether `BigDecimal::from_str` accepts it, and the formatted text of
      its `f64` / `f32` parse when that parse succeeds. */
  datatype NumberSyntax = NumberSyntax(
    isBigDecimal: string -> bool,
    f64Rendering: string -> Option<string>,
    f32Rendering: string -> Option<string>)

  // ---------------------------------------------------------------------
  // Rust integer parsing (`str::parse::<iN>()` / `<uN>()`)

  /** Rust's decimal integer parse: an optional '+' (or '-' for a signed
      type) followed by at least one ASCII digit, with a value in the
      type's range. */
  function ParseRustInt(s: string, ty: NumberType): (r: Option<int>)
    requires ty.IsInteger()
    ensures r.Some? ==> ty.Min() <= r.value <= ty.Max()
    ensures r.Some? ==> '.' !in s && 'e' !in s && 'E' !in s
    ensures r.Some? ==> |s| > 0 && (IsAsciiDigit(s[0]) || s[0] == '+' || (s[0] == '-' && ty.IsSigned()))
  {
    if |s| == 0 || ((s[0] == '+' || s[0] == '-') && |s| == 1) then None
    else
      var negative := s[0] == '-' && ty.IsSigned();
      var digits := if s[0] == '+' || negative then s[1..] else s;
      if !AllDigits(digits) then None
      else
        var v: int := if negative then 0 - DigitsValue(digits) else DigitsValue(digits);
        if ty.Min() <= v <= ty.Max() then
          assert forall i :: 0 < i < |s| ==> s[i] == digits[i - (|s| - |digits|)];
          Some(v)
        else None
  }

  /** The canonical decimal text of an in-range value parses back to it. */
  lemma {:induction false} IntRoundTrip(v: int, ty: NumberType)
    requires ty.IsInteger() && ty.Min() <= v <= ty.Max()
    ensures ParseRustInt(IntToString(v), ty) == Some(v)
  {
    var s := IntToString(v);
    if v < 0 {
      NatToStringValue(-v);
      assert s[1..] == NatToString(-v);
    } else {
      NatToStringValue(v);
    }
  }

  // ---------------------------------------------------------------------
  // Classification helpers

  /** `looks_like_integer`: no '.', 'e' or 'E'. */
  predicate LooksLikeInteger(literal: string) {
    !('.' in literal || 'e' in literal || 'E' in literal)
  }

  predicate IsExponentMark(c: char) {
    c == 'e' || c == 'E'
  }

  /** Position of the first exponent mark, or the length when there is none. */
  function ExponentIndex(s: string): (n: nat)
    ensures n <= |s|
    ensures forall i :: 0 <= i < n ==> !IsExponentMark(s[i])
    ensures n < |s| ==> IsExponentMark(s[n])
  {
    if |s| == 0 || IsExponentMark(s[0]) then 0 else 1 + ExponentIndex(s[1..])
  }

  /** Number of ASCII digits. */
  function DigitCount(s: string): nat {
    if |s| == 0 then 0
    else DigitCount(s[..|s| - 1]) + (if IsAsciiDigit(s[|s| - 1]) then 1 else 0)
  }

  /** The digits the precision rule counts: those before any exponent. */
  function SignificantDigits(literal: string): nat {
    DigitCount(literal[..ExponentIndex(literal)])
  }

  /** `count_significant_digits`, the character loop of the source with its
      `in_exponent` flag: it counts the digits before the first 'e'/'E'. */
  method CountSignificantDigits(literal: string) returns (digits: nat)
    ensures digits == SignificantDigits(literal)
  {
    digits := 0;
    var inExponent := false;
    var i := 0;
    while i < |literal|
      invariant 0 <= i <= |literal|
      invariant inExponent <==> ExponentIndex(literal) < i
      invariant digits == DigitCount(literal[..if inExponent then ExponentIndex(literal) else i])
    {
      var ch := literal[i];
      assert literal[..i + 1][..i] == literal[..i];
      if IsAsciiDigit(ch) {
        if !inExponent {
          digits := digits + 1;
        }
      } else if IsExponentMark(ch) {
        inExponent := true;
      }
      i := i + 1;
    }
    assert literal[..|literal|] == literal;
  }

  /** `requires_big_decimal_precision`: more than 15 significant digits. */
  predicate RequiresBigDecimalPrecision(literal: string) {
    SignificantDigits(literal) > 15
  }

  // ---------------------------------------------------------------------
  // Parsing

  /** `parse_big_decimal`: the literal itself when the decimal library
      accepts it. */
  function ParseBigDecimal(syn: NumberSyntax, literal: string): (r: Result<NumberValue, string>)
    ensures r.Ok? <==> syn.isBigDecimal(literal)
    ensures r.Ok? ==> r.value == BigDecimal(literal)
    ensures r.Err? ==> r.error == "Invalid number literal '" + literal + "'"
  {
    if syn.isBigDecimal(literal) then Ok(BigDecimal(literal))
    else Err("Invalid number literal '" + literal + "'")
  }

  /** The normalised hint: trimmed and ASCII-lowercased. */
  function HintName(hint: string): string {
    ToLower(Trim(hint))
  }

  /** The error for an integer literal outside its type's range. */
  function DoesNotFit(trimmed: string, ty: NumberType): string {
    "'" + trimmed + "' does not fit in " + ty.AsStr()
  }

  /** `parse_explicit_number`: the hint picks the type; integer types keep
      the canonical decimal text of the value when it is in range. */
  function ParseExplicitNumber(syn: NumberSyntax, literal: string, hint: string): (r: Result<NumberValue, string>)
    ensures HintName(hint) == "bigdecimal" ==> (r.Ok? <==> syn.isBigDecimal(literal))
    ensures HintName(hint) == "bigdecimal" && r.Ok? ==> r.value == BigDecimal(literal)
    ensures HintName(hint) != "bigdecimal" && ParseNumberType(HintName(hint)).None? ==>
              r == Err("Unsupported number type '" + HintName(hint) + "'")
    ensures r.Ok? && HintName(hint) != "bigdecimal" ==>
              r.value.Typed? && ParseNumberType(HintName(hint)) == Some(r.value.ty)
    ensures ParseNumberType(HintName(hint)).Some? && ParseNumberType(HintName(hint)).value.IsInteger() ==>
              var ty := ParseNumberType(HintName(hint)).value;
              && (r.Ok? <==> ParseRustInt(Trim(literal), ty).Some?)
              && (r.Ok? ==> ParseRustInt(r.value.typedLiteral, ty) == ParseRustInt(Trim(literal), ty))
              && (r.Err? ==> r.error == DoesNotFit(Trim(literal), ty))
  {
    var typeName := HintName(hint);
    if typeName == "bigdecimal" then ParseBigDecimal(syn, literal)
    else
      match ParseNumberType(typeName)
      case None => Err("Unsupported number type '" + typeName + "'")
      case Some(ty) => ParseTyped(syn, Trim(literal), ty)
  }

  /** The literal of a known type: for an integer type, the canonical
      decimal text of its value when it is in range; for a float type, the
      rendering of its parse. */
  function ParseTyped(syn: NumberSyntax, trimmed: string, ty: NumberType): (r: Result<NumberValue, string>)
    ensures r.Ok? ==> r.value.Typed? && r.value.ty == ty
    ensures ty.IsInteger() ==>
              && (r.Ok? <==> ParseRustInt(trimmed, ty).Some?)
              && (r.Ok? ==> ParseRustInt(r.value.typedLiteral, ty) == ParseRustInt(trimmed, ty))
              && (r.Err? ==> r.error == DoesNotFit(trimmed, ty))
  {
    if ty.IsInteger() then
      match ParseRustInt(trimmed, ty)
      case None => Err(DoesNotFit(trimmed, ty))
      case Some(v) =>
        IntRoundTrip(v, ty);
        Ok(Typed(IntToString(v), ty))
    else
      var rendering := if ty == F32 then syn.f32Rendering(trimmed) else syn.f64Rendering(trimmed);
      match rendering
      case None => Err("'" + trimmed + "' is not a valid " + ty.AsStr() + " literal")
      case Some(text) => Ok(Typed(text, ty))
  }

  /** `parse_number_value`: the literal is trimmed; an explicit hint decides
      alone; otherwise integers that fit i64 become `Int`, other integers
      and long decimals become `BigDecimal`, and the rest `Float` when the
      f64 parse succeeds. */
  function ParseNumberValue(syn: NumberSyntax, text: string, explicitType: Option<string>): (r: Result<NumberValue, string>)
    ensures Trim(text) == [] ==> r == Err("Number literal cannot be empty")
    ensures Trim(text) != [] && explicitType.Some? ==> r == ParseExplicitNumber(syn, Trim(text), explicitType.value)
    ensures (r.Ok? && r.value.Int?) <==>
              explicitType.None? && LooksLikeInteger(Trim(text)) && ParseRustInt(Trim(text), I64).Some?
    ensures r.Ok? && r.value.Int? ==> ParseRustInt(Trim(text), I64) == Some(r.value.intValue)
    ensures explicitType.None? && r.Ok? && r.value.BigDecimal? ==>
              r.value.literal == Trim(text) && syn.isBigDecimal(Trim(text))
    ensures (r.Ok? && r.value.Float?) <==>
              && explicitType.None? && Trim(text) != [] && !LooksLikeInteger(Trim(text))
              && !RequiresBigDecimalPrecision(Trim(text)) && syn.f64Rendering(Trim(text)).Some?
    ensures explicitType.None? && r.Err? ==>
              r.error == "Number literal cannot be empty" || r.error == "Invalid number literal '" + Trim(text) + "'"
    ensures explicitType.None? ==> !(r.Ok? && r.value.Typed?)
    ensures explicitType.None? && Trim(text) != [] && !(r.Ok? && (r.value.Int? || r.value.Float?)) ==>
              r == if syn.isBigDecimal(Trim(text)) then Ok(BigDecimal(Trim(text)))
                   else Err("Invalid number literal '" + Trim(text) + "'")
  {
    var literal := Trim(text);
    if literal == [] then Err("Number literal cannot be empty")
    else if explicitType.Some? then ParseExplicitNumber(syn, literal, explicitType.value)
    else if LooksLikeInteger(literal) then
      match ParseRustInt(literal, I64)
      case Some(v) => Ok(Int(v))
      case None => ParseBigDecimal(syn, literal)
    else if RequiresBigDecimalPrecision(literal) then ParseBigDecimal(syn, literal)
    else
      match syn.f64Rendering(literal)
      case Some(rendered) => Ok(Float(rendered))
      case None => ParseBigDecimal(syn, literal)
  }

  /** Surrounding whitespace never matters. */
  lemma {:induction false} ParseIgnoresSurroundingWhitespace(syn: NumberSyntax, text: string, explicitType: Option<string>)
    ensures ParseNumberValue(syn, text, explicitType) == ParseNumberValue(syn, Trim(text), explicitType)
  {
    TrimIdempotent(text);
  }

  /** An integer literal too large for i64 is kept verbatim as a decimal. */
  lemma {:induction false} OversizedIntegerIsBigDecimal(syn: NumberSyntax, literal: string)
    requires literal == Trim(literal) && literal != []
    requires AllDigits(literal) && DigitsValue(literal) > I64Max
    requires syn.isBigDecimal(literal)
    ensures ParseNumberValue(syn, literal, None) == Ok(BigDecimal(literal))
  {
    DigitsLookInteger(literal);
    DigitsAboveMax(literal, I64);
  }

  lemma {:induction false} DigitsLookInteger(s: string)
    requires AllDigits(s)
    ensures LooksLikeInteger(s)
  {
    assert forall i :: 0 <= i < |s| ==> s[i] != '.' && s[i] != 'e' && s[i] != 'E';
  }

  /** Digits whose value is above a type's maximum do not parse as it. */
  lemma {:induction false} DigitsAboveMax(s: string, ty: NumberType)
    requires ty.IsInteger() && s != [] && AllDigits(s) && DigitsValue(s) > ty.Max()
    ensures ParseRustInt(s, ty) == None
  {
    assert IsAsciiDigit(s[0]);
  }

  /** A decimal with more than 15 significant digits never becomes a Float. */
  lemma {:induction false} LongDecimalIsBigDecimal(syn: NumberSyntax, literal: string)
    requires literal == Trim(literal) && literal != []
    requires !LooksLikeInteger(literal) && SignificantDigits(literal) > 15
    ensures ParseNumberValue(syn, literal, None) == ParseBigDecimal(syn, literal)
  {
  }

  /** Canonical decimal text has no surrounding whitespace. */
  lemma {:induction false} CanonicalTrim(v: int)
    ensures Trim(IntToString(v)) == IntToString(v)
  {
    var s := IntToString(v);
    var digits := if v < 0 then NatToString(-v) else NatToString(v);
    assert s[|s| - 1] == digits[|digits| - 1];
    TrimNoSurroundingWhitespace(s);
  }

  /** An i64 literal in canonical form parses to its value. */
  lemma {:induction false} ParseCanonicalInt(syn: NumberSyntax, s: string, v: Int64)
    requires s == IntToString(v)
    ensures ParseNumberValue(syn, s, None) == Ok(Int(v))
  {
    CanonicalTrim(v);
    IntRoundTrip(v, I64);
  }

  lemma {:induction false} Text42(s: string)
    requires s == "42"
    ensures s == IntToString(42)
  {
    assert NatToString(4) == "4";
  }

  lemma {:induction false} TextMinus42(s: string)
    requires s == "-42"
    ensures s == IntToString(-42)
  {
    assert NatToString(4) == "4";
    assert NatToString(42) == "42";
  }

  lemma {:induction false} Text127(s: string)
    requires s == "127"
    ensures s == IntToString(127)
  {
    assert NatToString(1) == "1";
    assert NatToString(12) == "12";
  }

  lemma {:induction false} Text128(s: string)
    requires s == "128"
    ensures s == IntToString(128)
  {
    assert NatToString(1) == "1";
    assert NatToString(12) == "12";
  }

  /** Text with whitespace only around it trims to what is inside. */
  lemma {:induction false} TrimOfPadded42(s: string)
    requires s == "  42  "
    ensures Trim(s) == "42"
  {
    assert LeadingWhitespace(s[2..]) == 0;
    assert LeadingWhitespace(s[1..]) == 1;
    assert LeadingWhitespace(s) == 2;
    var t := s[2..];
    assert TrailingWhitespace(t[..2]) == 0;
    assert TrailingWhitespace(t[..3]) == 1;
    assert TrailingWhitespace(t) == 2;
    assert t[..2] == "42";
  }

  lemma {:induction false} Parse42(syn: NumberSyntax, s: string)
    requires s == "42"
    ensures ParseNumberValue(syn, s, None) == Ok(Int(42))
  {
    Text42(s);
    ParseCanonicalInt(syn, s, 42);
  }

  lemma {:induction false} ParseMinus42(syn: NumberSyntax, s: string)
    requires s == "-42"
    ensures ParseNumberValue(syn, s, None) == Ok(Int(-42))
  {
    TextMinus42(s);
    ParseCanonicalInt(syn, s, -42);
  }

  lemma {:induction false} ParsePadded42(syn: NumberSyntax, s: string)
    requires s == "  42  "
    ensures ParseNumberValue(syn, s, None) == Ok(Int(42))
  {
    TrimOfPadded42(s);
    ParseIgnoresSurroundingWhitespace(syn, s, None);
    Parse42(syn, Trim(s));
  }

  /** The worked examples of the source's tests: "42", "-42" and "  42  "
      give Int, the empty text is an error. */
  lemma {:induction false} ParseIntExamples(syn: NumberSyntax)
    ensures ParseNumberValue(syn, "42", None) == Ok(Int(42))
    ensures ParseNumberValue(syn, "-42", None) == Ok(Int(-42))
    ensures ParseNumberValue(syn, "  42  ", None) == Ok(Int(42))
    ensures ParseNumberValue(syn, "", None) == Err("Number literal cannot be empty")
  {
    Parse42(syn, "42");
    ParseMinus42(syn, "-42");
    ParsePadded42(syn, "  42  ");
  }

  lemma {:induction false} HintI8(hint: string)
    requires hint == "i8"
    ensures HintName(hint) == "i8" && HintName(hint) != "bigdecimal" && ParseNumberType(HintName(hint)) == Some(I8)
  {
    TrimNoSurroundingWhitespace(hint);
    assert ToLower(hint) == hint;
  }

  lemma {:induction false} HintU8(hint: string)
    requires hint == "u8"
    ensures HintName(hint) == "u8" && HintName(hint) != "bigdecimal" && ParseNumberType(HintName(hint)) == Some(U8)
  {
    TrimNoSurroundingWhitespace(hint);
    assert ToLower(hint) == hint;
  }

  /** i8 accepts 127 and rejects 128; u8 rejects a negative value. */
  lemma {:induction false} ParseExplicitI8Accepts127(syn: NumberSyntax)
    ensures ParseExplicitNumber(syn, "127", "i8") == Ok(Typed("127", I8))
  {
    var s := "127";
    Text127(s);
    CanonicalTrim(127);
    HintI8("i8");
    IntRoundTrip(127, I8);
    assert ParseTyped(syn, s, I8) == Ok(Typed(s, I8));
  }

  lemma {:induction false} ParseExplicitI8Rejects128(syn: NumberSyntax)
    ensures ParseExplicitNumber(syn, "128", "i8") == Err(DoesNotFit("128", I8))
  {
    var s := "128";
    Text128(s);
    CanonicalTrim(128);
    HintI8("i8");
    AboveMaxRejected(128, I8);
  }

  /** The canonical text of a value above a type's maximum does not parse
      as that type. */
  lemma {:induction false} AboveMaxRejected(v: nat, ty: NumberType)
    requires ty.IsInteger() && v > ty.Max()
    ensures ParseRustInt(IntToString(v), ty) == None
  {
    NatToStringValue(v);
    DigitsAboveMax(NatToString(v), ty);
  }

  /** An unsigned type rejects every literal with a minus sign. */
  lemma {:induction false} UnsignedRejectsMinus(syn: NumberSyntax, literal: string, hint: string, ty: NumberType)
    requires HintName(hint) != "bigdecimal" && ParseNumberType(HintName(hint)) == Some(ty)
    requires ty.IsInteger() && !ty.IsSigned()
    requires |Trim(literal)| > 0 && Trim(literal)[0] == '-'
    ensures ParseExplicitNumber(syn, literal, hint) == Err(DoesNotFit(Trim(literal), ty))
  {
    assert ParseRustInt(Trim(literal), ty).None?;
  }

  lemma {:induction false} MinusOne(literal: string)
    requires literal == "-1"
    ensures Trim(literal) == literal && |literal| > 0 && literal[0] == '-'
  {
    TrimNoSurroundingWhitespace(literal);
  }

  lemma {:induction false} ParseExplicitU8RejectsNegative(syn: NumberSyntax, literal: string)
    requires literal == "-1"
    ensures ParseExplicitNumber(syn, literal, "u8") == Err(DoesNotFit(literal, U8))
  {
    HintU8("u8");
    MinusOne(literal);
    UnsignedRejectsMinus(syn, literal, "u8", U8);
  }

  // ---------------------------------------------------------------------
  // escape_literal

  /** `escape_literal`: backslashes doubled, then double quotes escaped. */
  function EscapeLiteral(literal: string): string {
    Replace(Replace(literal, "\\", "\\\\"), "\"", "\\\"")
  }

  function LiteralEscapeChar(c: char): string {
    if c == '\\' then "\\\\" else if c == '"' then "\\\"" else [c]
  }

  /** The two replacements together escape each character on its own. */
  lemma {:induction false} EscapeLiteralPerChar(s: string)
    ensures EscapeLiteral(s) == FlatMapChars(s, LiteralEscapeChar)
  {
    var f1 := ch => if ch == '\\' then "\\\\" else [ch];
    var f2 := ch => if ch == '"' then "\\\"" else [ch];
    ReplaceChar(s, '\\', "\\\\");
    assert "\\" == ['\\'];
    assert "\"" == ['"'];
    ReplaceChar(FlatMapChars(s, f1), '"', "\\\"");
    ComposeEscapes(s, f1, f2);
  }

  lemma {:induction false} ComposeEscapes(s: string, f1: char -> string, f2: char -> string)
    requires forall ch :: f1(ch) == if ch == '\\' then "\\\\" else [ch]
    requires forall ch :: f2(ch) == if ch == '"' then "\\\"" else [ch]
    ensures FlatMapChars(FlatMapChars(s, f1), f2) == FlatMapChars(s, LiteralEscapeChar)
  {
    if |s| > 0 {
      ComposeEscapes(s[1..], f1, f2);
      FlatMapCharsAppend(f1(s[0]), FlatMapChars(s[1..], f1), f2);
      var c := s[0];
      if c == '\\' {
        assert FlatMapChars("\\\\", f2) == "\\\\" by {
          assert "\\\\"[1..] == "\\";
          assert "\\"[1..] == [];
        }
      } else if c == '"' {
        assert FlatMapChars("\"", f2) == "\\\"" by {
          assert "\""[1..] == [];
        }
      } else {
        assert FlatMapChars([c], f2) == [c] by {
          assert [c][1..] == [];
        }
      }
    }
  }

  /** Escaping is the identity on text with no backslash and no quote. */
  lemma {:induction false} EscapeLiteralIdentity(s: string)
    requires '\\' !in s && '"' !in s
    ensures EscapeLiteral(s) == s
  {
    EscapeLiteralPerChar(s);
    PlainFlatMap(s);
  }

  lemma {:induction false} PlainFlatMap(s: string)
    requires '\\' !in s && '"' !in s
    ensures FlatMapChars(s, LiteralEscapeChar) == s
  {
    if |s| > 0 {
      assert '\\' !in s[1..] && '"' !in s[1..];
      PlainFlatMap(s[1..]);
    }
  }

  /** The escaped literal, read as the body of a Rust string literal, is
      the original text. */
  lemma {:induction false} EscapeLiteralRoundTrip(s: string)
    ensures UnescapeDebug(EscapeLiteral(s)) == Some(s)
  {
    EscapeLiteralPerChar(s);
    UnescapeFlatMap(s);
  }

  lemma {:induction false} UnescapeFlatMap(s: string)
    ensures UnescapeDebug(FlatMapChars(s, LiteralEscapeChar)) == Some(s)
  {
    if |s| > 0 {
      UnescapeFlatMap(s[1..]);
      var c := s[0];
      var e := LiteralEscapeChar(c);
      var rest := FlatMapChars(s[1..], LiteralEscapeChar);
      assert FlatMapChars(s, LiteralEscapeChar) == e + rest;
      assert [c] + s[1..] == s;
      if c == '\\' || c == '"' {
        assert (e + rest)[0] == '\\';
        assert (e + rest)[1] == c;
        assert (e + rest)[2..] == rest;
      } else {
        assert (e + rest)[0] == c;
        assert (e + rest)[1..] == rest;
      }
    }
  }

  // ---------------------------------------------------------------------
  // The handler

  const TypeName: string := "number"
  const XmlTags: seq<string> := ["number", "int", "float"]

  /** `build_node`: a node of kind Number for a Number value whose literal
      parses; None otherwise. */
  function BuildNode(syn: NumberSyntax, parsed: Ast.ParsedResource, origin: ResourceOrigin): (r: Option<ResourceNode>)
    ensures r.Some? <==> parsed.value.Number? && ParseNumberValue(syn, parsed.value.numberText, parsed.value.explicitType).Ok?
    ensures r.Some? ==> r.value.kind == NumberKind && r.value.origin == origin
    ensures r.Some? ==> r.value.value == NumberVal(ParseNumberValue(syn, parsed.value.numberText, parsed.value.explicitType).value)
  {
    if !parsed.value.Number? then None
    else
      match ParseNumberValue(syn, parsed.value.numberText, parsed.value.explicitType)
      case Ok(v) => Some(ResourceNode(NumberKind, NumberVal(v), origin))
      case Err(_) => None
  }

  /** The static holding an arbitrary-precision decimal. */
  function BigDecimalStatic(indent: nat, name: string, raw: string): string {
    var pad := Spaces(indent);
    pad + "pub static " + name + ": std::sync::LazyLock<r_resources::BigDecimal> = std::sync::LazyLock::new(|| {\n"
    + pad + "    r_resources::BigDecimal::from_str(\"" + EscapeLiteral(raw) + "\").expect(\"valid decimal literal\")\n"
    + pad + "});\n"
  }

  /** The declaration of one number: a constant whose type and value
      follow the number's variant, or a lazily parsed static for a
      `BigDecimal`. */
  function EmitNumber(indent: nat, name: string, n: NumberValue): (r: string)
    requires IsIdentifier(name)
    ensures n.Int? ==> DecodeConstLine(r) == Some(ConstDecl(indent, name, "i64", IntToString(n.intValue)))
    ensures n.Float? ==> DecodeConstLine(r) == Some(ConstDecl(indent, name, "f64", n.rendered))
    ensures n.Typed? ==> DecodeConstLine(r) == Some(ConstDecl(indent, name, n.ty.AsStr(), n.typedLiteral))
    ensures n.BigDecimal? ==> r == BigDecimalStatic(indent, name, n.literal)
  {
    match n
    case Int(i) => IntConst(indent, name, i)
    case Float(rendered) => FloatConst(indent, name, rendered)
    case BigDecimal(raw) => BigDecimalStatic(indent, name, raw)
    case Typed(literal, ty) =>
      AsStrIsTypeName(ty);
      TypedConst(indent, name, ty.AsStr(), literal)
  }

  /** A number type's name is a single Rust type token. */
  lemma {:induction false} AsStrIsTypeName(ty: NumberType)
    ensures IsTypeName(ty.AsStr())
  {
    var s := ty.AsStr();
    assert |s| <= 3 && forall i :: 0 <= i < |s| ==> s[i] != ' ' && s[i] != ':';
  }

  /** An `i64` constant, written in decimal. */
  function IntConst(indent: nat, name: string, i: Int64): (r: string)
    requires IsIdentifier(name)
    ensures DecodeConstLine(r) == Some(ConstDecl(indent, name, "i64", IntToString(i)))
  {
    var ty := I64.AsStr();
    AsStrIsTypeName(I64);
    assert ty == "i64";
    TypedConst(indent, name, ty, IntToString(i))
  }

  /** An `f64` constant, written with the float's rendering. */
  function FloatConst(indent: nat, name: string, rendered: string): (r: string)
    requires IsIdentifier(name)
    ensures DecodeConstLine(r) == Some(ConstDecl(indent, name, "f64", rendered))
  {
    var ty := F64.AsStr();
    AsStrIsTypeName(F64);
    assert ty == "f64";
    TypedConst(indent, name, ty, rendered)
  }

  /** A constant of a given type, written with its literal unchanged. */
  function TypedConst(indent: nat, name: string, ty: string, literal: string): (r: string)
    requires IsIdentifier(name) && IsTypeName(ty)
    ensures DecodeConstLine(r) == Some(ConstDecl(indent, name, ty, literal))
  {
    ConstLineRoundTrip(indent, name, ty, literal);
    ConstLine(indent, name, ty, literal)
  }

  /** `emit_rust`: None for a non-number value; otherwise a constant named
      after the key whose type and value follow the number's variant. */
  function Emit(key: ResourceKey, node: ResourceNode, indent: nat): (r: Option<string>)
    ensures r.Some? <==> node.value.NumberVal?
    ensures r.Some? && node.value.number.Int? ==>
              exists v :: DecodeConstLine(r.value) == Some(ConstDecl(indent, ConstName(key.name), "i64", v))
                          && ParseRustInt(v, I64) == Some(node.value.number.intValue)
    ensures r.Some? && node.value.number.Float? ==>
              DecodeConstLine(r.value) == Some(ConstDecl(indent, ConstName(key.name), "f64", node.value.number.rendered))
    ensures r.Some? && node.value.number.Typed? ==>
              DecodeConstLine(r.value) == Some(ConstDecl(indent, ConstName(key.name), node.value.number.ty.AsStr(), node.value.number.typedLiteral))
    ensures r.Some? && node.value.number.BigDecimal? ==>
              r.value == BigDecimalStatic(indent, ConstName(key.name), node.value.number.literal)
  {
    match node.value
    case NumberVal(n) =>
      if n.Int? then IntRoundTrip(n.intValue, I64); Some(EmitNumber(indent, ConstName(key.name), n))
      else Some(EmitNumber(indent, ConstName(key.name), n))
    case _ => None
  }
}
