/** The color, url and dimension modules of the legacy generator
    (codegen/generator/advanced.rs), with the typed `color_t` and `url_t`
    modules built from hex colours and split URLs. */
module LegacyAdvanced {
  import opened Wrappers
  import opened Text
  import opened Identifiers
  import opened Runtime
  import opened LegacyTypes
  import opened LegacyStrings

  // ---------------------------------------------------------------------
  // `u8::from_str_radix(_, 16)`

  function HexDigitValue(c: char): Option<nat> {
    if '0' <= c <= '9' then Some(c as int - '0' as int)
    else if 'a' <= c <= 'f' then Some(c as int - 'a' as int + 10)
    else if 'A' <= c <= 'F' then Some(c as int - 'A' as int + 10)
    else None
  }

  /** The value of a run of hexadecimal digits, most significant first;
      `None` at the first character that is not one. */
  function HexDigitsValue(s: string): Option<nat>
    decreases |s|
  {
    if |s| == 0 then Some(0)
    else match (HexDigitsValue(s[..|s| - 1]), HexDigitValue(s[|s| - 1]))
      case (Some(h), Some(d)) => Some(16 * h + d)
      case _ => None
  }

  /** `u8::from_str_radix(s, 16)`: an optional '+' and at least one hex
      digit, with a value that fits in a byte. */
  function ParseU8Hex(s: string): (r: Option<U8>)
    ensures r.Some? ==> forall i :: 0 <= i < |s| ==> s[i] as int < 0x80
  {
    var digits := if |s| > 0 && s[0] == '+' then s[1..] else s;
    if |digits| == 0 then None
    else match HexDigitsValue(digits)
      case Some(v) =>
        HexDigitsAscii(digits);
        if v < 0x100 then Some(v) else None
      case None => None
  }

  lemma {:induction false} HexDigitsAscii(s: string)
    requires HexDigitsValue(s).Some?
    ensures forall i :: 0 <= i < |s| ==> s[i] as int < 0x80
    decreases |s|
  {
    if |s| > 0 {
      HexDigitsAscii(s[..|s| - 1]);
      assert forall i :: 0 <= i < |s| - 1 ==> s[i] == s[..|s| - 1][i];
    }
  }

  // ---------------------------------------------------------------------
  // `parse_hex_argb`

  /** Alpha, red, green and blue, in the order `parse_hex_argb` returns
      them. */
  type Argb = (U8, U8, U8, U8)

  predicate IsAscii(s: string) {
    forall i :: 0 <= i < |s| ==> s[i] as int < 0x80
  }

  /** `count` two-character pieces read as bytes, one after the other. */
  function HexBytes(t: string, count: nat): (r: Option<seq<U8>>)
    ensures r.Some? ==> |r.value| == count
  {
    if count == 0 then Some([])
    else if |t| < 2 then None
    else match (ParseU8Hex(t[..2]), HexBytes(t[2..], count - 1))
      case (Some(v), Some(vs)) => Some([v] + vs)
      case _ => None
  }

  /** The byte order of a colour: "RRGGBB" is opaque, "AARRGGBB" carries
      its alpha first. */
  function ToArgb(vs: seq<U8>): Argb
    requires |vs| == 3 || |vs| == 4
  {
    if |vs| == 3 then (0xFF, vs[0], vs[1], vs[2]) else (vs[0], vs[1], vs[2], vs[3])
  }

  /** `parse_hex_argb`, as the rest of the model uses it: a '#' and six or
      eight hex digits; anything else, a text with a character beyond
      ASCII included, is not a colour. */
  function ParseHexArgb(s: string): Option<Argb> {
    if |s| == 0 || s[0] != '#' || !IsAscii(s[1..]) then None
    else
      var hex := s[1..];
      if |hex| == 6 || |hex| == 8 then
        match HexBytes(hex, |hex| / 2)
        case Some(vs) => Some(ToArgb(vs))
        case None => None
      else None
  }

  /** Two upper-case digits read back as the byte they were written from. */
  lemma {:induction false} Hex2Parses(x: U8)
    ensures ParseU8Hex(Hex2(x)) == Some(x)
  {
    var s := Hex2(x);
    assert s[..1] == [s[0]];
    assert HexDigitsValue(s[..1]) == Some(x / 16);
    assert HexDigitsValue(s) == Some(16 * (x / 16) + x % 16);
  }

  lemma {:induction false} HexBytesCons(x: U8, rest: string, count: nat)
    requires count > 0
    ensures HexBytes(Hex2(x) + rest, count) ==
              match HexBytes(rest, count - 1) case Some(vs) => Some([x] + vs) case None => None
  {
    var t := Hex2(x) + rest;
    assert t[..2] == Hex2(x) && t[2..] == rest;
    Hex2Parses(x);
  }

  /** `as_hex` and `parse_hex_argb` are inverse: the hex text of a colour
      reads back as its alpha, red, green and blue. */
  lemma {:induction false} AsHexRoundTrip(c: Color)
    ensures ParseHexArgb(AsHex(c)) == Some((c.a, c.r, c.g, c.b))
  {
    var s := AsHex(c);
    HexIsAscii(s);
    HexBody(c);
  }

  /** The digits of a colour's hex text read back as its bytes, alpha
      first when it is written. */
  lemma {:induction false} HexBody(c: Color)
    ensures HexBytes(AsHex(c)[1..], |AsHex(c)[1..]| / 2) ==
              Some(if c.a == 255 then [c.r, c.g, c.b] else [c.a, c.r, c.g, c.b])
  {
    var hex := AsHex(c)[1..];
    var rgb := Hex2(c.r) + (Hex2(c.g) + Hex2(c.b));
    HexRgb(c.r, c.g, c.b);
    if c.a == 255 {
      assert hex == rgb;
    } else {
      HexBytesCons(c.a, rgb, 4);
      assert hex == Hex2(c.a) + rgb;
      assert [c.a] + [c.r, c.g, c.b] == [c.a, c.r, c.g, c.b];
    }
  }

  /** Three bytes written as hex read back as those bytes. */
  lemma {:induction false} HexRgb(r: U8, g: U8, b: U8)
    ensures HexBytes(Hex2(r) + (Hex2(g) + Hex2(b)), 3) == Some([r, g, b])
  {
    assert HexBytes("", 0) == Some([]);
    HexBytesCons(b, "", 1);
    assert Hex2(b) + "" == Hex2(b) && [b] + [] == [b];
    HexBytesCons(g, Hex2(b), 2);
    HexBytesCons(r, Hex2(g) + Hex2(b), 3);
    assert [r] + ([g] + [b]) == [r, g, b];
  }

  /** The hex text of a colour is ASCII after its '#'. */
  lemma {:induction false} HexIsAscii(s: string)
    requires |s| > 0 && forall i :: 1 <= i < |s| ==> IsUpperHexDigit(s[i])
    ensures IsAscii(s[1..])
  {
    forall i | 0 <= i < |s[1..]| ensures s[1..][i] as int < 0x80 {
      assert s[1..][i] == s[i + 1];
    }
  }

  /** The pieces as the source slices them: `&hex[0..2]`, `&hex[2..4]`,
      ... are byte ranges, and a range whose end falls inside a character
      panics. Slicing the first two bytes and going on with the rest
      checks the same boundaries in the same order. A piece that does not
      parse returns `None` at once, before the next piece is sliced. */
  function HexBytesAsWritten(t: string, count: nat): (r: Outcome<Option<seq<U8>>>)
    ensures r.Returns? && r.value.Some? ==> |r.value.value| == count
  {
    if count == 0 then Returns(Some([]))
    else
      var p := BytePrefix(t, 2);
      if Utf8Len(p) != 2 then Panics
      else match ParseU8Hex(p)
        case None => Returns(None)
        case Some(v) =>
          match HexBytesAsWritten(t[|p|..], count - 1)
          case Panics => Panics
          case Returns(None) => Returns(None)
          case Returns(Some(vs)) => Returns(Some([v] + vs))
  }

  /** `parse_hex_argb` as written: the length that selects six or eight
      digits is `hex.len()`, a count of bytes. */
  function ParseHexArgbAsWritten(s: string): Outcome<Option<Argb>> {
    if |s| == 0 || s[0] != '#' then Returns(None)
    else
      var hex := s[1..];
      var n := Utf8Len(hex);
      if n == 6 || n == 8 then
        match HexBytesAsWritten(hex, n / 2)
        case Panics => Panics
        case Returns(None) => Returns(None)
        case Returns(Some(vs)) => Returns(Some(ToArgb(vs)))
      else Returns(None)
  }

  lemma {:induction false} AsciiLen(s: string)
    requires IsAscii(s)
    ensures Utf8Len(s) == |s|
  {
    if |s| > 0 {
      AsciiLen(s[1..]);
    }
  }

  lemma {:induction false} AsciiPrefix(t: string)
    requires IsAscii(t) && |t| >= 2
    ensures BytePrefix(t, 2) == t[..2]
  {
    assert t[1..][1..] == t[2..];
  }

  /** On ASCII text the bytes are the characters: the slices are the
      character pieces. */
  lemma {:induction false} AsciiHexBytes(t: string, count: nat)
    requires IsAscii(t) && 2 * count <= |t|
    ensures HexBytesAsWritten(t, count) == Returns(HexBytes(t, count))
    decreases count
  {
    if count > 0 {
      AsciiSuffix(t, 2);
      AsciiHexBytes(t[2..], count - 1);
      AsciiHexStep(t, count);
    }
  }

  lemma {:induction false} AsciiSuffix(t: string, k: nat)
    requires IsAscii(t) && k <= |t|
    ensures IsAscii(t[k..])
  {
    forall i | 0 <= i < |t[k..]| ensures t[k..][i] as int < 0x80 {
      assert t[k..][i] == t[k + i];
    }
  }

  /** One piece of `AsciiHexBytes`: the first two characters are the
      first two bytes. */
  lemma {:induction false} AsciiHexStep(t: string, count: nat)
    requires IsAscii(t) && |t| >= 2 && count > 0
    requires HexBytesAsWritten(t[2..], count - 1) == Returns(HexBytes(t[2..], count - 1))
    ensures HexBytesAsWritten(t, count) == Returns(HexBytes(t, count))
  {
    AsciiPrefix(t);
    var p := t[..2];
    assert IsAscii(p) by {
      forall i | 0 <= i < |p| ensures p[i] as int < 0x80 {
        assert p[i] == t[i];
      }
    }
    AsciiLen(p);
    assert t[|p|..] == t[2..];
  }

  lemma {:induction false} Utf8LenPositive(s: string)
    requires |s| > 0
    ensures Utf8Len(s) > 0
  {
  }

  /** Pieces that all parse are ASCII, so a text holding any other
      character never reads as a whole colour. */
  lemma {:induction false} ParsedIsAscii(t: string, count: nat)
    requires Utf8Len(t) == 2 * count
    requires HexBytesAsWritten(t, count).Returns? && HexBytesAsWritten(t, count).value.Some?
    ensures IsAscii(t)
    decreases count
  {
    if count == 0 {
      if |t| > 0 {
        Utf8LenPositive(t);
      }
    } else {
      var p := BytePrefix(t, 2);
      var rest := t[|p|..];
      ParsedPiece(t, count);
      PrefixRest(t, p);
      ParsedIsAscii(rest, count - 1);
      AsciiJoin(p, rest);
    }
  }

  /** The first piece of a parse that succeeds is two ASCII bytes, and the
      rest parses too. */
  lemma {:induction false} ParsedPiece(t: string, count: nat)
    requires count > 0
    requires HexBytesAsWritten(t, count).Returns? && HexBytesAsWritten(t, count).value.Some?
    ensures Utf8Len(BytePrefix(t, 2)) == 2 && IsAscii(BytePrefix(t, 2))
    ensures HexBytesAsWritten(t[|BytePrefix(t, 2)|..], count - 1).Returns?
    ensures HexBytesAsWritten(t[|BytePrefix(t, 2)|..], count - 1).value.Some?
  {
  }

  /** A prefix and what follows it make up the text, bytes included. */
  lemma {:induction false} PrefixRest(t: string, p: string)
    requires p <= t
    ensures t == p + t[|p|..] && Utf8Len(t) == Utf8Len(p) + Utf8Len(t[|p|..])
  {
    assert t == p + t[|p|..];
    Utf8LenAppend(p, t[|p|..]);
  }

  lemma {:induction false} AsciiJoin(a: string, b: string)
    requires IsAscii(a) && IsAscii(b)
    ensures IsAscii(a + b)
  {
    forall i | 0 <= i < |a + b| ensures (a + b)[i] as int < 0x80 {
      if i >= |a| {
        assert (a + b)[i] == b[i - |a|];
      }
    }
  }

  /** The corrected parser never panics and returns what the source
      returns whenever the source does not panic. */
  lemma {:induction false} ParseHexArgbAgrees(s: string)
    requires ParseHexArgbAsWritten(s).Returns?
    ensures ParseHexArgbAsWritten(s).value == ParseHexArgb(s)
  {
    if |s| > 0 && s[0] == '#' {
      var hex := s[1..];
      var n := Utf8Len(hex);
      if IsAscii(hex) {
        AsciiLen(hex);
        if n == 6 || n == 8 {
          AsciiHexBytes(hex, n / 2);
        }
      } else if n == 6 || n == 8 {
        if HexBytesAsWritten(hex, n / 2).value.Some? {
          ParsedIsAscii(hex, n / 2);
        }
      }
    }
  }

  /** "#a€bc" is six bytes long (the euro sign takes three), so the source
      takes the six-digit branch, and `&hex[0..2]` ends inside the euro
      sign: the build panics. The corrected parser says it is not a
      colour. */
  lemma {:induction false} EuroColorPanics(s: string)
    requires s == "#a€bc"
    ensures ParseHexArgbAsWritten(s) == Panics
    ensures ParseHexArgb(s) == None
  {
    var hex := s[1..];
    assert hex == "a€bc";
    assert hex[1..] == "€bc" && hex[1..][1..] == "bc" && hex[1..][1..][1..] == "c" && hex[1..][1..][1..][1..] == "";
    assert Utf8Width('€') == 3;
    assert Utf8Len("c") == 1;
    assert Utf8Len("bc") == 2;
    assert Utf8Len("€bc") == 5;
    assert Utf8Len(hex) == 6;
    assert BytePrefix(hex, 2) == "a";
    assert !IsAscii(hex) by {
      assert hex[1] as int >= 0x80;
    }
  }

  /** A '+' and one digit read as the digit's value. */
  lemma {:induction false} PlusDigit(c: char)
    requires HexDigitValue(c).Some?
    ensures ParseU8Hex(['+', c]) == HexDigitValue(c)
  {
    assert ['+', c][1..] == [c];
    assert [c][..0] == [] && [c][0] == c;
    assert HexDigitsValue([]) == Some(0);
    assert HexDigitsValue([c]) == HexDigitValue(c);
  }

  /** A leading '+' is accepted by `from_str_radix`, so "#+1+2+3" is the
      opaque colour (1, 2, 3). */
  lemma {:induction false} PlusSignsAccepted(s: string)
    requires s == "#+1+2+3"
    ensures ParseHexArgb(s) == Some((0xFF, 1, 2, 3))
  {
    var hex := s[1..];
    assert hex[..2] == ['+', '1'] && hex[2..][..2] == ['+', '2'] && hex[2..][2..][..2] == ['+', '3'];
    assert hex[2..][2..][2..] == "";
    PlusDigit('1');
    PlusDigit('2');
    PlusDigit('3');
    assert HexDigitValue('1') == Some(1) && HexDigitValue('2') == Some(2) && HexDigitValue('3') == Some(3);
    HexBytesStep(hex[2..][2..], 1, 3, []);
    assert [3] + [] == [3];
    HexBytesStep(hex[2..], 2, 2, [3]);
    assert [2] + [3] == [2, 3];
    HexBytesStep(hex, 3, 1, [2, 3]);
    assert [1] + [2, 3] == [1, 2, 3];
  }

  lemma {:induction false} HexBytesStep(t: string, count: nat, v: U8, vs: seq<U8>)
    requires count > 0 && |t| >= 2 && ParseU8Hex(t[..2]) == Some(v) && HexBytes(t[2..], count - 1) == Some(vs)
    ensures HexBytes(t, count) == Some([v] + vs)
  {
  }

  // ---------------------------------------------------------------------
  // `split_url_parts`

  /** The first position where `pat` occurs in `s`. */
  function Find(s: string, pat: string): (r: Option<nat>)
    ensures r.Some? ==> OccursAt(s, pat, r.value) && forall j: nat :: j < r.value ==> !OccursAt(s, pat, j)
    ensures r.None? ==> forall j: nat :: !OccursAt(s, pat, j)
    decreases |s|
  {
    if |s| < |pat| then None
    else if s[..|pat|] == pat then Some(0)
    else
      match Find(s[1..], pat)
      case None =>
        forall j: nat ensures !OccursAt(s, pat, j) {
          if j > 0 && OccursAt(s, pat, j) {
            assert s[1..][j - 1..j - 1 + |pat|] == s[j..j + |pat|];
            assert OccursAt(s[1..], pat, j - 1);
          }
        }
        None
      case Some(i) =>
        assert s[1..][i..i + |pat|] == s[i + 1..i + 1 + |pat|];
        forall j: nat | j < i + 1 ensures !OccursAt(s, pat, j) {
          if j > 0 && OccursAt(s, pat, j) {
            assert s[1..][j - 1..j - 1 + |pat|] == s[j..j + |pat|];
            assert OccursAt(s[1..], pat, j - 1);
          }
        }
        Some(i + 1)
  }

  /** The host up to the first '/' after the scheme, and the rest, with
      its '/', as the path; the path is "/" when there is no '/'. */
  function SplitHost(rest: string): (r: (string, string))
    ensures '/' !in r.0 && |r.1| > 0 && r.1[0] == '/'
    ensures rest == r.0 + r.1 || (r.1 == "/" && rest == r.0)
    ensures '/' in rest ==> rest == r.0 + r.1
  {
    match IndexOf(rest, '/')
    case Some(j) =>
      assert rest == rest[..j] + ("/" + rest[j + 1..]);
      (rest[..j], "/" + rest[j + 1..])
    case None => (rest, "/")
  }

  /** `split_url_parts`: the scheme before the first "://", then the host
      and the path. */
  function SplitUrlParts(s: string): Option<UrlParts> {
    match Find(s, "://")
    case None => None
    case Some(i) =>
      var hp := SplitHost(s[i + 3..]);
      Some(UrlParts(s[..i], hp.0, hp.1))
  }

  /** Text before the first occurrence of a non-empty pattern does not
      hold it. */
  lemma {:induction false} BeforeFirst(s: string, pat: string, i: nat)
    requires |pat| > 0 && i <= |s| && forall j: nat :: j < i ==> !OccursAt(s, pat, j)
    ensures forall j: nat :: !OccursAt(s[..i], pat, j)
  {
    forall j: nat ensures !OccursAt(s[..i], pat, j) {
      if OccursAt(s[..i], pat, j) {
        assert s[j..j + |pat|] == s[..i][j..j + |pat|];
        assert OccursAt(s, pat, j);
      }
    }
  }

  lemma {:induction false} SplitAt3(s: string, i: nat)
    requires OccursAt(s, "://", i)
    ensures s == s[..i] + "://" + s[i + 3..]
  {
  }

  lemma {:induction false} Regroup(a: string, b: string, c: string, d: string)
    ensures a + b + (c + d) == a + b + c + d
  {
  }

  /** A URL splits exactly when it holds "://". */
  lemma {:induction false} SplitUrlPartsWhen(s: string)
    ensures SplitUrlParts(s).None? <==> forall j: nat :: !OccursAt(s, "://", j)
  {
  }

  /** The scheme holds no "://", the host no '/', the path starts with
      '/', and the parts put back together give the URL, or the URL
      without a trailing "/" when it had no path. */
  lemma {:induction false} SplitUrlPartsSpec(s: string)
    ensures SplitUrlParts(s).Some? ==>
              var u := SplitUrlParts(s).value;
              (forall j: nat :: !OccursAt(u.scheme, "://", j))
              && '/' !in u.host && |u.path| > 0 && u.path[0] == '/'
              && (s == u.scheme + "://" + u.host + u.path || (u.path == "/" && s == u.scheme + "://" + u.host))
  {
    match Find(s, "://")
    case None =>
    case Some(i) =>
      var rest := s[i + 3..];
      var hp := SplitHost(rest);
      SplitAt3(s, i);
      BeforeFirst(s, "://", i);
      if rest == hp.0 + hp.1 {
        Regroup(s[..i], "://", hp.0, hp.1);
      }
  }

  /** The first occurrence, found by its position. */
  lemma {:induction false} FindAt(s: string, pat: string, i: nat)
    requires OccursAt(s, pat, i) && forall j: nat :: j < i ==> !OccursAt(s, pat, j)
    ensures Find(s, pat) == Some(i)
  {
  }

  /** The separator after a scheme without ':' is the first one. */
  lemma {:induction false} FindSeparator(a: string, b: string)
    requires ':' !in a
    ensures Find(a + "://" + b, "://") == Some(|a|)
  {
    var s := a + "://" + b;
    assert s[|a|..|a| + 3] == "://";
    forall j: nat | j < |a| ensures !OccursAt(s, "://", j) {
      assert s[j] == a[j];
      assert s[j..j + 3][0] == s[j];
    }
    FindAt(s, "://", |a|);
  }

  /** A URL with a scheme free of ':' and a path splits into exactly
      those parts. */
  lemma {:induction false} SplitUrlOf(scheme: string, host: string, path: string)
    requires ':' !in scheme && '/' !in host
    ensures SplitUrlParts(scheme + "://" + (host + "/" + path)) == Some(UrlParts(scheme, host, "/" + path))
  {
    var rest := host + "/" + path;
    var s := scheme + "://" + rest;
    FindSeparator(scheme, rest);
    assert s[..|scheme|] == scheme && s[|scheme| + 3..] == rest;
    IndexOfAfter(host, '/', path);
    assert rest[..|host|] == host && rest[|host| + 1..] == path;
  }

  lemma {:induction false} ExampleUrlParts(s: string)
    requires s == "https://example.com/docs"
    ensures s == "https" + "://" + ("example.com" + "/" + "docs")
  {
  }

  /** The example of the runtime's documentation. */
  lemma {:induction false} SplitUrlExample(s: string)
    requires s == "https://example.com/docs"
    ensures SplitUrlParts(s) == Some(UrlParts("https", "example.com", "/docs"))
  {
    ExampleUrlParts(s);
    SplitUrlOf("https", "example.com", "docs");
  }

  // ---------------------------------------------------------------------
  // The modules

  /** The color module's line for one resource: a quoted constant for a
      colour, a path constant for a reference, nothing otherwise. */
  function ColorLine(item: (string, Value)): string {
    match item.1
    case ColorValue(c) => StringConst(4, ConstName(item.0), c)
    case Reference(ty, key) => ReferenceConst(4, ConstName(item.0), ty, key)
    case _ => ""
  }

  /** The `color_t` line for one resource: a `Color` constant when the
      value is a colour whose text parses, nothing otherwise. */
  function TypedColorLine(item: (string, Value)): (r: string)
    ensures r != "" <==> item.1.ColorValue? && ParseHexArgb(item.1.color).Some?
  {
    match item.1
    case ColorValue(c) =>
      (match ParseHexArgb(c)
       case Some((a, r, g, b)) =>
         "    pub const " + ConstName(item.0) + ": Color = Color::new("
         + NatToString(r) + ", " + NatToString(g) + ", " + NatToString(b) + ", " + NatToString(a) + ");\n"
       case None => "")
    case _ => ""
  }

  function Lines(items: seq<(string, Value)>, line: ((string, Value)) -> string): (r: seq<string>)
    ensures |r| == |items| && forall i :: 0 <= i < |items| ==> r[i] == line(items[i])
  {
    seq(|items|, i requires 0 <= i < |items| => line(items[i]))
  }

  const ColorTypedHeader := "\npub mod color_t {\n    use crate::Color;\n"

  /** `generate_color_module`: the color module, then `color_t`. */
  function GenerateColorModule(colors: seq<(string, Value)>): string {
    "\npub mod color {\n" + Concat(Lines(colors, ColorLine)) + "}\n"
    + ColorTypedHeader + Concat(Lines(colors, TypedColorLine)) + "}\n"
  }

  /** The `color_t` line as the source computes it: the parse of the
      colour's text can panic, and otherwise gives the line above. */
  function TypedColorLineAsWritten(item: (string, Value)): (r: Outcome<string>)
    ensures r.Panics? <==> item.1.ColorValue? && ParseHexArgbAsWritten(item.1.color).Panics?
    ensures r.Returns? ==> r.value == TypedColorLine(item)
  {
    match item.1
    case ColorValue(c) =>
      (match ParseHexArgbAsWritten(c)
       case Panics => Panics
       case Returns(v) => ParseHexArgbAgrees(c); Returns(TypedColorLine(item)))
    case _ => Returns("")
  }

  /** The `color_t` lines in order, as the source computes them: the first
      panic ends the run. */
  function TypedColorLinesAsWritten(items: seq<(string, Value)>): (r: Outcome<string>)
    ensures r.Panics? <==> exists i :: 0 <= i < |items| && TypedColorLineAsWritten(items[i]).Panics?
    ensures r.Returns? ==> r.value == Concat(Lines(items, TypedColorLine))
    decreases |items|
  {
    if |items| == 0 then Returns("")
    else
      var rest := TypedColorLinesAsWritten(items[1..]);
      ColorLinesCons(items);
      match TypedColorLineAsWritten(items[0])
      case Panics => Panics
      case Returns(line) =>
        (match rest
         case Panics => Panics
         case Returns(t) => Returns(line + t))
  }

  /** The first item's line in front of the others'. */
  lemma {:induction false} ColorLinesCons(items: seq<(string, Value)>)
    requires |items| > 0
    ensures Concat(Lines(items, TypedColorLine)) == TypedColorLine(items[0]) + Concat(Lines(items[1..], TypedColorLine))
    ensures (exists i :: 0 <= i < |items| && TypedColorLineAsWritten(items[i]).Panics?) <==>
              TypedColorLineAsWritten(items[0]).Panics? || exists i :: 0 <= i < |items[1..]| && TypedColorLineAsWritten(items[1..][i]).Panics?
  {
    var ls := Lines(items, TypedColorLine);
    assert ls[1..] == Lines(items[1..], TypedColorLine);
    if exists i :: 0 <= i < |items| && TypedColorLineAsWritten(items[i]).Panics? {
      var i :| 0 <= i < |items| && TypedColorLineAsWritten(items[i]).Panics?;
      if i > 0 {
        assert items[1..][i - 1] == items[i];
      }
    }
  }

  /** `generate_color_module` as the source runs it: it panics exactly
      when the text of some colour makes the source's parse panic, and
      otherwise returns the module above. */
  function GenerateColorModuleAsWritten(colors: seq<(string, Value)>): (r: Outcome<string>)
    ensures r.Panics? <==> exists i :: 0 <= i < |colors| && colors[i].1.ColorValue? && ParseHexArgbAsWritten(colors[i].1.color).Panics?
    ensures r.Returns? ==> r.value == GenerateColorModule(colors)
  {
    match TypedColorLinesAsWritten(colors)
    case Panics => Panics
    case Returns(t) =>
      Returns("\npub mod color {\n" + Concat(Lines(colors, ColorLine)) + "}\n" + ColorTypedHeader + t + "}\n")
  }

  /** The colour "#a€bc" anywhere in the list makes the module panic. */
  lemma {:induction false} EuroColorModulePanics(colors: seq<(string, Value)>, i: nat)
    requires i < |colors| && colors[i].1 == ColorValue("#a€bc")
    ensures GenerateColorModuleAsWritten(colors).Panics?
  {
    EuroColorPanics("#a€bc");
  }

  /** The URL module's line for one resource: only URLs are emitted. */
  function UrlLine(item: (string, Value)): string {
    if item.1.UrlValue? then StringConst(4, ConstName(item.0), item.1.url) else ""
  }

  /** The `url_t` line for one resource: the parts of a URL that splits,
      each written between quotes as it is. */
  function TypedUrlLine(item: (string, Value)): (r: string)
    ensures r != "" <==> item.1.UrlValue? && SplitUrlParts(item.1.url).Some?
  {
    if item.1.UrlValue? then
      match SplitUrlParts(item.1.url)
      case Some(u) =>
        "    pub const " + ConstName(item.0) + ": UrlParts = UrlParts::new(\""
        + u.scheme + "\", \"" + u.host + "\", \"" + u.path + "\");\n"
      case None => ""
    else ""
  }

  const UrlTypedHeader := "\npub mod url_t {\n    use crate::UrlParts;\n"

  /** `generate_url_module`: the url module, then `url_t`. */
  function GenerateUrlModule(urls: seq<(string, Value)>): string {
    "\npub mod url {\n" + Concat(Lines(urls, UrlLine)) + "}\n"
    + UrlTypedHeader + Concat(Lines(urls, TypedUrlLine)) + "}\n"
  }

  /** The dimension module's line for one resource. */
  function DimensionLine(item: (string, Value)): string {
    if item.1.DimensionValue? then StringConst(4, ConstName(item.0), item.1.dimension) else ""
  }

  /** `generate_dimension_module`. */
  function GenerateDimensionModule(dimensions: seq<(string, Value)>): string {
    "\npub mod dimension {\n" + Concat(Lines(dimensions, DimensionLine)) + "}\n"
  }

  /** What one line of the module body holds, the module holds. */
  lemma {:induction false} LineInBody(head: string, items: seq<(string, Value)>, line: ((string, Value)) -> string, tail: string, i: nat)
    requires i < |items|
    ensures Contains(head + Concat(Lines(items, line)) + tail, line(items[i]))
  {
    var ls := Lines(items, line);
    ConcatContains(ls, i);
    ContainsWrapped(head, Concat(ls), tail, ls[i]);
  }

  /** The `color_t` line of a colour written as a runtime colour's hex
      text builds that colour. */
  lemma {:induction false} TypedColorLineOf(name: string, c: Color)
    ensures TypedColorLine((name, ColorValue(AsHex(c)))) ==
              "    pub const " + ConstName(name) + ": Color = Color::new("
              + NatToString(c.r) + ", " + NatToString(c.g) + ", " + NatToString(c.b) + ", " + NatToString(c.a) + ");\n"
  {
    AsHexRoundTrip(c);
  }

  /** A colour resource gets its `color` constant, quoting its text. */
  lemma {:induction false} ColorConstEmitted(colors: seq<(string, Value)>, i: nat)
    requires i < |colors| && colors[i].1.ColorValue?
    ensures Contains(GenerateColorModule(colors), StringConst(4, ConstName(colors[i].0), colors[i].1.color))
  {
    var head := "\npub mod color {\n";
    var tail := "}\n" + ColorTypedHeader + Concat(Lines(colors, TypedColorLine)) + "}\n";
    LineInBody(head, colors, ColorLine, tail, i);
    Regroup6(head, Concat(Lines(colors, ColorLine)), "}\n", ColorTypedHeader, Concat(Lines(colors, TypedColorLine)), "}\n");
  }

  /** Six pieces of text joined left to right, regrouped after the second. */
  lemma {:induction false} Regroup6(a: string, b: string, c: string, d: string, e: string, f: string)
    ensures a + b + c + d + e + f == a + b + (c + d + e + f)
  {
  }

  /** A colour resource whose text is the hex form of a runtime colour
      gets a `color_t` constant built with `Color::new` from the colour's
      own channels. */
  lemma {:induction false} TypedColorEmitted(colors: seq<(string, Value)>, i: nat, c: Color)
    requires i < |colors| && colors[i].1 == ColorValue(AsHex(c))
    ensures Contains(GenerateColorModule(colors),
                     "    pub const " + ConstName(colors[i].0) + ": Color = Color::new("
                     + NatToString(c.r) + ", " + NatToString(c.g) + ", " + NatToString(c.b) + ", " + NatToString(c.a) + ");\n")
  {
    TypedColorLineOf(colors[i].0, c);
    var head := "\npub mod color {\n" + Concat(Lines(colors, ColorLine)) + "}\n" + ColorTypedHeader;
    LineInBody(head, colors, TypedColorLine, "}\n", i);
  }

  /** Every dimension value is emitted as a `&str` constant holding its
      escaped text. */
  lemma {:induction false} DimensionEmitted(dimensions: seq<(string, Value)>, i: nat)
    requires i < |dimensions| && dimensions[i].1.DimensionValue?
    ensures Contains(GenerateDimensionModule(dimensions), StringConst(4, ConstName(dimensions[i].0), dimensions[i].1.dimension))
  {
    LineInBody("\npub mod dimension {\n", dimensions, DimensionLine, "}\n", i);
  }

  /** A URL resource that holds "://" gets a `url_t` constant whose parts
      are its split. */
  lemma {:induction false} TypedUrlEmitted(urls: seq<(string, Value)>, i: nat)
    requires i < |urls| && urls[i].1.UrlValue? && SplitUrlParts(urls[i].1.url).Some?
    ensures Contains(GenerateUrlModule(urls), TypedUrlLine(urls[i]))
    ensures TypedUrlLine(urls[i]) != ""
  {
    var head := "\npub mod url {\n" + Concat(Lines(urls, UrlLine)) + "}\n" + UrlTypedHeader;
    LineInBody(head, urls, TypedUrlLine, "}\n", i);
  }
}
