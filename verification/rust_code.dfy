/** The shape of the Rust items the emitters write: a `pub const` line and
    a string literal. `DecodeConstLine` reads a line back into its parts,
    so an emitter's contract can say which constant it declares instead of
    how the text is concatenated. */
module RustCode {
  import opened Wrappers
  import opened Text
  import opened Identifiers

  /** `{pad}pub const {name}: {ty} = {value};\n`, where `pad` is `indent`
      spaces. */
  function ConstLine(indent: nat, name: string, ty: string, value: string): string {
    Spaces(indent) + "pub const " + name + ": " + ty + " = " + value + ";\n"
  }

  /** A Rust string literal holding `s`, written with `escape_debug`. */
  function StrLiteral(s: string): string {
    "\"" + EscapeDebug(s) + "\""
  }

  datatype ConstDecl = ConstDecl(indent: nat, name: string, ty: string, value: string)

  function LeadingSpaces(s: string): (n: nat)
    ensures n <= |s|
    ensures forall i :: 0 <= i < n ==> s[i] == ' '
    ensures n == |s| || s[n] != ' '
  {
    if |s| > 0 && s[0] == ' ' then 1 + LeadingSpaces(s[1..]) else 0
  }

  /** Reads a `pub const` line back: its indentation, name, type and value
      text. The name runs to the first ':', the type to the next space. */
  function DecodeConstLine(line: string): Option<ConstDecl> {
    var n := LeadingSpaces(line);
    var rest := line[n..];
    if !IsPrefix("pub const ", rest) then None
    else
      match DecodeNamed(rest[10..])
      case None => None
      case Some(d) => Some(ConstDecl(n, d.0, d.1, d.2))
  }

  /** `{name}: {ty} = {value};\n` */
  function DecodeNamed(s: string): Option<(string, string, string)> {
    match IndexOf(s, ':')
    case None => None
    case Some(i) =>
      if !IsPrefix(": ", s[i..]) then None
      else
        match DecodeTyped(s[i + 2..])
        case None => None
        case Some(d) => Some((s[..i], d.0, d.1))
  }

  /** `{ty} = {value};\n` */
  function DecodeTyped(s: string): Option<(string, string)> {
    match IndexOf(s, ' ')
    case None => None
    case Some(j) =>
      if !IsPrefix(" = ", s[j..]) then None
      else
        var tail := s[j + 3..];
        if |tail| < 2 || tail[|tail| - 2..] != ";\n" then None
        else Some((s[..j], tail[..|tail| - 2]))
  }

  /** A type name as written in a constant declaration: no space, no ':'. */
  predicate IsTypeName(ty: string) {
    ' ' !in ty && ':' !in ty
  }

  lemma {:induction false} DecodeTypedOf(ty: string, value: string)
    requires IsTypeName(ty)
    ensures DecodeTyped(ty + " = " + value + ";\n") == Some((ty, value))
  {
    var s := ty + " = " + value + ";\n";
    assert s == ty + (" = " + value + ";\n");
    IndexOfPrefix(ty, ' ', " = " + value + ";\n");
    assert s[..|ty|] == ty;
    assert s[|ty|..] == " = " + value + ";\n";
    var tail := value + ";\n";
    assert s[|ty| + 3..] == tail;
    assert tail[|tail| - 2..] == ";\n";
    assert tail[..|tail| - 2] == value;
  }

  lemma {:induction false} DecodeNamedOf(name: string, ty: string, value: string)
    requires IsIdentifier(name) && IsTypeName(ty)
    ensures DecodeNamed(name + ": " + ty + " = " + value + ";\n") == Some((name, ty, value))
  {
    var rest := ty + " = " + value + ";\n";
    var s := name + ": " + ty + " = " + value + ";\n";
    assert s == name + (": " + rest);
    assert !IsIdentChar(':');
    IndexOfPrefix(name, ':', ": " + rest);
    assert s[..|name|] == name;
    assert s[|name|..] == ": " + rest;
    assert s[|name| + 2..] == rest;
    DecodeTypedOf(ty, value);
  }

  /** Decoding a written constant line gives back its parts, provided the
      name is an identifier and the type a plain type name. */
  lemma {:induction false} ConstLineRoundTrip(indent: nat, name: string, ty: string, value: string)
    requires IsIdentifier(name) && IsTypeName(ty)
    ensures DecodeConstLine(ConstLine(indent, name, ty, value)) == Some(ConstDecl(indent, name, ty, value))
  {
    var line := ConstLine(indent, name, ty, value);
    var named := name + ": " + ty + " = " + value + ";\n";
    var rest := "pub const " + named;
    assert line == Spaces(indent) + rest;
    LeadingSpacesOf(indent, rest);
    assert line[indent..] == rest;
    assert rest[10..] == named;
    DecodeNamedOf(name, ty, value);
  }

  lemma {:induction false} LeadingSpacesOf(n: nat, rest: string)
    requires |rest| > 0 && rest[0] != ' '
    ensures LeadingSpaces(Spaces(n) + rest) == n
  {
    if n > 0 {
      assert (Spaces(n) + rest)[1..] == Spaces(n - 1) + rest;
      LeadingSpacesOf(n - 1, rest);
    } else {
      assert Spaces(0) + rest == rest;
    }
  }

  lemma {:induction false} IndexOfPrefix(a: string, c: char, b: string)
    requires c !in a && |b| > 0 && b[0] == c
    ensures IndexOf(a + b, c) == Some(|a|)
  {
    assert b == [c] + b[1..];
    assert a + b == a + [c] + b[1..];
    IndexOfAfter(a, c, b[1..]);
  }

  /** A string constant: its value is a string literal that reads back as
      the original text. */
  lemma {:induction false} StrConstRoundTrip(indent: nat, name: string, text: string)
    requires IsIdentifier(name)
    ensures DecodeConstLine(ConstLine(indent, name, "&str", StrLiteral(text)))
            == Some(ConstDecl(indent, name, "&str", StrLiteral(text)))
    ensures UnquoteLiteral(StrLiteral(text)) == Some(text)
  {
    ConstLineRoundTrip(indent, name, "&str", StrLiteral(text));
    EscapeDebugRoundTrip(text);
    var lit := StrLiteral(text);
    assert lit[1..|lit| - 1] == EscapeDebug(text);
  }

  /** The text a Rust string literal stands for. */
  function UnquoteLiteral(lit: string): Option<string> {
    if |lit| < 2 || lit[0] != '"' || lit[|lit| - 1] != '"' then None
    else UnescapeDebug(lit[1..|lit| - 1])
  }
}
