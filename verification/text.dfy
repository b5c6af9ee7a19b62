/** String helpers shared by every stage of the resource compiler: the
    character classes the Rust code relies on, `trim`, `split`/`join`,
    `replace`, decimal rendering, UTF-8 byte length and the `escape_debug`
    escaping used when string values are written into generated source. */
module Text {
  import opened Wrappers

  // ---------------------------------------------------------------------
  // Character classes

  predicate IsAsciiDigit(c: char) {
    '0' <= c <= '9'
  }

  predicate IsAsciiUpper(c: char) {
    'A' <= c <= 'Z'
  }

  predicate IsAsciiLower(c: char) {
    'a' <= c <= 'z'
  }

  /** `char::is_alphanumeric`, restricted to ASCII letters and digits. */
  predicate IsAlphanumeric(c: char) {
    IsAsciiDigit(c) || IsAsciiUpper(c) || IsAsciiLower(c)
  }

  /** `char::is_whitespace`: the Unicode White_Space property. */
  predicate IsWhitespace(c: char) {
    || ('\t' <= c <= '\r')
    || c == ' '
    || c == '\U{85}'
    || c == '\U{A0}'
    || c == '\U{1680}'
    || ('\U{2000}' <= c <= '\U{200A}')
    || c == '\U{2028}'
    || c == '\U{2029}'
    || c == '\U{202F}'
    || c == '\U{205F}'
    || c == '\U{3000}'
  }

  function DigitValue(c: char): nat
    requires IsAsciiDigit(c)
  {
    (c as int) - ('0' as int)
  }

  function DigitChar(d: nat): (c: char)
    requires d < 10
    ensures IsAsciiDigit(c) && DigitValue(c) == d
  {
    ('0' as int + d) as char
  }

  predicate AllDigits(s: string) {
    forall i :: 0 <= i < |s| ==> IsAsciiDigit(s[i])
  }

  // ---------------------------------------------------------------------
  // Case mapping (ASCII)

  function UpperChar(c: char): char {
    if IsAsciiLower(c) then (c as int - 32) as char else c
  }

  function LowerChar(c: char): char {
    if IsAsciiUpper(c) then (c as int + 32) as char else c
  }

  /** `to_uppercase` / `to_ascii_uppercase` on the ASCII range. */
  function ToUpper(s: string): (r: string)
    ensures |r| == |s|
    ensures forall i :: 0 <= i < |s| ==> r[i] == UpperChar(s[i])
  {
    seq(|s|, i requires 0 <= i < |s| => UpperChar(s[i]))
  }

  /** `to_lowercase` / `to_ascii_lowercase` on the ASCII range. */
  function ToLower(s: string): (r: string)
    ensures |r| == |s|
    ensures forall i :: 0 <= i < |s| ==> r[i] == LowerChar(s[i])
  {
    seq(|s|, i requires 0 <= i < |s| => LowerChar(s[i]))
  }

  /** `" ".repeat(n)`, the indentation pad of every emitter. */
  function Spaces(n: nat): (r: string)
    ensures |r| == n
    ensures forall i :: 0 <= i < n ==> r[i] == ' '
  {
    seq(n, _ => ' ')
  }

  // ---------------------------------------------------------------------
  // Searching

  /** Index of the first occurrence of `c`, as `str::find(char)`. */
  function IndexOf(s: string, c: char): (r: Option<nat>)
    ensures r.None? <==> c !in s
    ensures r.Some? ==> r.value < |s| && s[r.value] == c && c !in s[..r.value]
  {
    if |s| == 0 then None
    else if s[0] == c then Some(0)
    else match IndexOf(s[1..], c)
      case None => None
      case Some(i) => Some(i + 1)
  }

  /** The first `c` of `a + [c] + b` is the one after `a` when `a` has none. */
  lemma {:induction false} IndexOfAfter(a: string, c: char, b: string)
    requires c !in a
    ensures IndexOf(a + [c] + b, c) == Some(|a|)
  {
    var s := a + [c] + b;
    if |a| > 0 {
      assert s[1..] == a[1..] + [c] + b;
      IndexOfAfter(a[1..], c, b);
    }
  }

  /** Number of occurrences of `c` in `s`. */
  function Count(s: string, c: char): nat {
    if |s| == 0 then 0 else (if s[0] == c then 1 else 0) + Count(s[1..], c)
  }

  predicate IsPrefix(p: string, s: string) {
    |p| <= |s| && s[..|p|] == p
  }

  // ---------------------------------------------------------------------
  // trim

  /** Number of leading whitespace characters. */
  function LeadingWhitespace(s: string): (n: nat)
    ensures n <= |s|
    ensures forall i :: 0 <= i < n ==> IsWhitespace(s[i])
    ensures n == |s| || !IsWhitespace(s[n])
  {
    if |s| > 0 && IsWhitespace(s[0]) then 1 + LeadingWhitespace(s[1..]) else 0
  }

  /** Number of trailing whitespace characters. */
  function TrailingWhitespace(s: string): (n: nat)
    ensures n <= |s|
    ensures forall i :: |s| - n <= i < |s| ==> IsWhitespace(s[i])
    ensures n == |s| || !IsWhitespace(s[|s| - n - 1])
  {
    if |s| > 0 && IsWhitespace(s[|s| - 1]) then 1 + TrailingWhitespace(s[..|s| - 1]) else 0
  }

  /** `str::trim`: the infix of `s` left after removing leading and
      trailing whitespace. */
  function Trim(s: string): (r: string)
    ensures |r| <= |s|
    ensures r == [] || (!IsWhitespace(r[0]) && !IsWhitespace(r[|r| - 1]))
    ensures r == [] ==> forall i :: 0 <= i < |s| ==> IsWhitespace(s[i])
    ensures exists a, b :: 0 <= a <= b <= |s| && s[a..b] == r
                           && (forall i :: 0 <= i < a ==> IsWhitespace(s[i]))
                           && (forall i :: b <= i < |s| ==> IsWhitespace(s[i]))
  {
    var a := LeadingWhitespace(s);
    var rest := s[a..];
    var b := TrailingWhitespace(rest);
    var r := rest[..|rest| - b];
    assert s[a..a + |r|] == r;
    assert forall i :: a + |r| <= i < |s| ==> s[i] == rest[i - a];
    r
  }

  /** Trimming text that neither starts nor ends with whitespace changes
      nothing, so `trim` is idempotent. */
  lemma {:induction false} TrimNoSurroundingWhitespace(s: string)
    requires s == [] || (!IsWhitespace(s[0]) && !IsWhitespace(s[|s| - 1]))
    ensures Trim(s) == s
  {
    if s != [] {
      assert LeadingWhitespace(s) == 0;
      assert s[0..] == s;
      assert TrailingWhitespace(s) == 0;
    }
  }

  lemma {:induction false} TrimIdempotent(s: string)
    ensures Trim(Trim(s)) == Trim(s)
  {
    TrimNoSurroundingWhitespace(Trim(s));
  }

  // ---------------------------------------------------------------------
  // split / join

  /** `parts.join(sep)`. */
  function Join(parts: seq<string>, sep: string): string {
    if |parts| == 0 then []
    else if |parts| == 1 then parts[0]
    else parts[0] + sep + Join(parts[1..], sep)
  }

  lemma {:induction false} JoinSnoc(parts: seq<string>, last: string, sep: string)
    requires |parts| > 0
    ensures Join(parts + [last], sep) == Join(parts, sep) + sep + last
  {
    if |parts| == 1 {
      assert parts + [last] == [parts[0], last];
    } else {
      assert (parts + [last])[1..] == parts[1..] + [last];
      JoinSnoc(parts[1..], last, sep);
    }
  }

  /** `str::split(char)`: the pieces between separators, `count + 1` of them. */
  function Split(s: string, sep: char): (parts: seq<string>)
    ensures |parts| == Count(s, sep) + 1
    ensures forall i :: 0 <= i < |parts| ==> sep !in parts[i]
    ensures Join(parts, [sep]) == s
    decreases |s|
  {
    match IndexOf(s, sep)
    case None =>
      CountAbsent(s, sep);
      [s]
    case Some(i) =>
      var rest := Split(s[i + 1..], sep);
      CountAt(s, sep, i);
      assert s == s[..i] + [sep] + s[i + 1..];
      [s[..i]] + rest
  }

  lemma {:induction false} CountAbsent(s: string, c: char)
    requires c !in s
    ensures Count(s, c) == 0
  {
    if |s| > 0 {
      assert c !in s[1..];
      CountAbsent(s[1..], c);
    }
  }

  lemma {:induction false} CountAt(s: string, c: char, i: nat)
    requires i < |s| && s[i] == c && c !in s[..i]
    ensures Count(s, c) == 1 + Count(s[i + 1..], c)
  {
    if i > 0 {
      assert s[1..][..i - 1] == s[1..i];
      assert c !in s[1..][..i - 1];
      assert s[1..][i..] == s[i + 1..];
      CountAt(s[1..], c, i - 1);
    } else {
      assert s[1..] == s[i + 1..];
    }
  }

  /** The pieces of `split` with the empty ones removed, as
      `split(sep).filter(|p| !p.is_empty())`. */
  function NonEmpty(parts: seq<string>): (r: seq<string>)
    ensures |r| <= |parts|
    ensures forall i :: 0 <= i < |r| ==> r[i] != [] && r[i] in parts
  {
    if |parts| == 0 then []
    else if parts[0] == [] then NonEmpty(parts[1..])
    else [parts[0]] + NonEmpty(parts[1..])
  }

  lemma {:induction false} NonEmptyIdentity(parts: seq<string>)
    requires forall i :: 0 <= i < |parts| ==> parts[i] != []
    ensures NonEmpty(parts) == parts
  {
    if |parts| > 0 {
      NonEmptyIdentity(parts[1..]);
    }
  }

  // ---------------------------------------------------------------------
  // replace

  /** `str::replace(pat, rep)`: non-overlapping occurrences of `pat`,
      found left to right, are replaced by `rep`; an empty pattern inserts
      `rep` before every character and at the end. */
  function Replace(s: string, pat: string, rep: string): string
    decreases |s|
  {
    if |pat| == 0 then
      (if |s| == 0 then rep else rep + [s[0]] + Replace(s[1..], pat, rep))
    else if |s| < |pat| then s
    else if s[..|pat|] == pat then rep + Replace(s[|pat|..], pat, rep)
    else [s[0]] + Replace(s[1..], pat, rep)
  }

  predicate OccursAt(s: string, pat: string, i: nat) {
    i + |pat| <= |s| && s[i..i + |pat|] == pat
  }

  /** Replacing a non-empty pattern that does not occur is the identity. */
  lemma {:induction false} ReplaceAbsent(s: string, pat: string, rep: string)
    requires |pat| > 0
    requires forall i: nat :: !OccursAt(s, pat, i)
    ensures Replace(s, pat, rep) == s
    decreases |s|
  {
    if |s| >= |pat| {
      assert !OccursAt(s, pat, 0);
      assert s[0..|pat|] == s[..|pat|];
      forall i: nat ensures !OccursAt(s[1..], pat, i) {
        assert !OccursAt(s, pat, i + 1);
        if i + |pat| <= |s[1..]| {
          assert s[1..][i..i + |pat|] == s[i + 1..i + 1 + |pat|];
        }
      }
      ReplaceAbsent(s[1..], pat, rep);
      assert [s[0]] + s[1..] == s;
    }
  }

  /** Each character replaced by the string `f` gives for it. */
  function FlatMapChars(s: string, f: char -> string): string {
    if |s| == 0 then [] else f(s[0]) + FlatMapChars(s[1..], f)
  }

  lemma {:induction false} FlatMapCharsAppend(a: string, b: string, f: char -> string)
    ensures FlatMapChars(a + b, f) == FlatMapChars(a, f) + FlatMapChars(b, f)
  {
    if |a| > 0 {
      assert (a + b)[1..] == a[1..] + b;
      FlatMapCharsAppend(a[1..], b, f);
    } else {
      assert a + b == b;
    }
  }

  /** Replacing a one-character pattern rewrites each occurrence of that
      character on its own. */
  lemma {:induction false} ReplaceChar(s: string, c: char, rep: string)
    ensures Replace(s, [c], rep) == FlatMapChars(s, ch => if ch == c then rep else [ch])
  {
    if |s| > 0 {
      ReplaceChar(s[1..], c, rep);
      assert s[..1] == [s[0]];
      assert s[1..] == s[|[c]|..];
    }
  }

  /** Replacing a one-character pattern distributes over concatenation. */
  lemma {:induction false} ReplaceCharAppend(a: string, b: string, c: char, rep: string)
    ensures Replace(a + b, [c], rep) == Replace(a, [c], rep) + Replace(b, [c], rep)
    decreases |a|
  {
    if |a| == 0 {
      assert a + b == b;
    } else {
      assert (a + b)[..1] == a[..1] && (a + b)[0] == a[0];
      assert (a + b)[1..] == a[1..] + b;
      ReplaceCharAppend(a[1..], b, c, rep);
    }
  }

  // ---------------------------------------------------------------------
  // Decimal rendering (`to_string` of integers)

  /** Canonical decimal digits of `n`: no sign, no leading zero. */
  function NatToString(n: nat): (r: string)
    ensures |r| > 0 && AllDigits(r)
    ensures |r| > 1 ==> r[0] != '0'
    decreases n
  {
    if n < 10 then [DigitChar(n)] else NatToString(n / 10) + [DigitChar(n % 10)]
  }

  /** Value of a string of ASCII digits (leading zeros allowed). */
  function DigitsValue(s: string): nat
    requires AllDigits(s)
  {
    if |s| == 0 then 0 else 10 * DigitsValue(s[..|s| - 1]) + DigitValue(s[|s| - 1])
  }

  lemma {:induction false} NatToStringValue(n: nat)
    ensures DigitsValue(NatToString(n)) == n
    decreases n
  {
    var r := NatToString(n);
    if n >= 10 {
      NatToStringValue(n / 10);
      assert r[..|r| - 1] == NatToString(n / 10);
    }
  }

  /** `i64::to_string` and friends: a '-' before the magnitude when negative. */
  function IntToString(i: int): (r: string)
    ensures |r| > 0
    ensures i < 0 <==> r[0] == '-'
  {
    if i < 0 then "-" + NatToString(-i) else NatToString(i)
  }

  // ---------------------------------------------------------------------
  // UTF-8 byte length (Rust `str::len`)

  function Utf8Width(c: char): nat {
    if c as int < 0x80 then 1
    else if c as int < 0x800 then 2
    else if c as int < 0x10000 then 3
    else 4
  }

  function Utf8Len(s: string): nat {
    if |s| == 0 then 0 else Utf8Width(s[0]) + Utf8Len(s[1..])
  }

  lemma {:induction false} Utf8LenAppend(a: string, b: string)
    ensures Utf8Len(a + b) == Utf8Len(a) + Utf8Len(b)
  {
    if |a| > 0 {
      assert (a + b)[1..] == a[1..] + b;
      Utf8LenAppend(a[1..], b);
    } else {
      assert a + b == b;
    }
  }

  /** The longest prefix of `s` whose UTF-8 encoding fits in `n` bytes. */
  function BytePrefix(s: string, n: nat): (r: string)
    ensures r <= s
    ensures Utf8Len(r) <= n
    ensures |r| < |s| ==> Utf8Len(r) + Utf8Width(s[|r|]) > n
    decreases |s|
  {
    if |s| == 0 || Utf8Width(s[0]) > n then []
    else
      var t := BytePrefix(s[1..], n - Utf8Width(s[0]));
      assert ([s[0]] + t)[1..] == t;
      [s[0]] + t
  }

  // ---------------------------------------------------------------------
  // escape_debug

  /** `escape_debug` of one character, for the characters this model
      escapes: backslash, both quotes, newline, carriage return, tab, NUL. */
  function EscapeDebugChar(c: char): string {
    if c == '\\' then "\\\\"
    else if c == '"' then "\\\""
    else if c == '\'' then "\\'"
    else if c == '\n' then "\\n"
    else if c == '\r' then "\\r"
    else if c == '\t' then "\\t"
    else if c == '\0' then "\\0"
    else [c]
  }

  function EscapeDebug(s: string): string {
    if |s| == 0 then [] else EscapeDebugChar(s[0]) + EscapeDebug(s[1..])
  }

  /** The character a two-character escape `\c` stands for. */
  function UnescapeCode(c: char): Option<char> {
    if c == '\\' then Some('\\')
    else if c == '"' then Some('"')
    else if c == '\'' then Some('\'')
    else if c == 'n' then Some('\n')
    else if c == 'r' then Some('\r')
    else if c == 't' then Some('\t')
    else if c == '0' then Some('\0')
    else None
  }

  /** Reads back a Rust string-literal body written with the escapes above;
      None for a dangling or unknown escape and for a bare '"', which would
      end the literal early. */
  function UnescapeDebug(s: string): Option<string>
    decreases |s|
  {
    if |s| == 0 then Some([])
    else if s[0] == '"' then None
    else if s[0] != '\\' then
      match UnescapeDebug(s[1..])
      case None => None
      case Some(t) => Some([s[0]] + t)
    else if |s| < 2 then None
    else
      match UnescapeCode(s[1])
      case None => None
      case Some(ch) =>
        match UnescapeDebug(s[2..])
        case None => None
        case Some(t) => Some([ch] + t)
  }

  /** Each character's escape reads back as that character. */
  lemma {:induction false} EscapeDebugCharRoundTrip(c: char)
    ensures |EscapeDebugChar(c)| == 1 ==> EscapeDebugChar(c) == [c] && c != '\\'
    ensures |EscapeDebugChar(c)| != 1 ==>
      |EscapeDebugChar(c)| == 2 && EscapeDebugChar(c)[0] == '\\' && UnescapeCode(EscapeDebugChar(c)[1]) == Some(c)
  {
  }

  /** A backslash followed by a character that starts no Rust escape makes
      the literal unreadable, whatever comes after it. `\x`, `\u` and a
      backslash before a newline start escapes that this model does not
      read, so they are excluded, and so is a backslash before a carriage
      return and a newline, which Rust reads as a newline. */
  lemma {:induction false} UnknownEscape(p: string, c: char, q: string)
    requires forall i :: 0 <= i < |p| ==> p[i] != '\\'
    requires UnescapeCode(c).None? && c != 'x' && c != 'u' && c != '\n'
    requires !(c == '\r' && |q| > 0 && q[0] == '\n')
    ensures UnescapeDebug(p + ['\\', c] + q).None?
    decreases |p|
  {
    var s := p + ['\\', c] + q;
    if |p| == 0 {
      assert s == ['\\', c] + q;
    } else {
      UnknownEscape(p[1..], c, q);
      assert s[1..] == p[1..] + ['\\', c] + q;
    }
  }


  lemma {:induction false} EscapeDebugRoundTrip(s: string)
    ensures UnescapeDebug(EscapeDebug(s)) == Some(s)
  {
    if |s| > 0 {
      EscapeDebugRoundTrip(s[1..]);
      var c := s[0];
      var e := EscapeDebugChar(c);
      var rest := EscapeDebug(s[1..]);
      assert EscapeDebug(s) == e + rest;
      EscapeDebugCharRoundTrip(c);
      assert [c] + s[1..] == s;
      if |e| == 1 {
        assert (e + rest)[0] == c;
        assert (e + rest)[1..] == rest;
      } else {
        assert (e + rest)[0] == '\\';
        assert (e + rest)[1] == e[1];
        assert (e + rest)[2..] == rest;
      }
    }
  }

  lemma {:induction false} EscapeDebugIdentity(s: string)
    requires forall i :: 0 <= i < |s| ==> |EscapeDebugChar(s[i])| == 1
    ensures EscapeDebug(s) == s
  {
    if |s| > 0 {
      EscapeDebugIdentity(s[1..]);
    }
  }

  // ---------------------------------------------------------------------
  // containment

  /** `s` occurs in `t` at some position. */
  predicate Contains(t: string, s: string) {
    exists i :: 0 <= i <= |t| && ContainsAt(t, s, i)
  }

  predicate ContainsAt(t: string, s: string, i: int) {
    0 <= i && i + |s| <= |t| && t[i..i + |s|] == s
  }

  lemma {:induction false} ContainsMiddle(p: string, s: string, q: string)
    ensures Contains(p + s + q, s)
  {
    assert (p + s + q)[|p|..|p| + |s|] == s;
    assert ContainsAt(p + s + q, s, |p|);
  }

  lemma {:induction false} ContainsTrans(t: string, s: string, u: string)
    requires Contains(t, s) && Contains(s, u)
    ensures Contains(t, u)
  {
    var i :| 0 <= i <= |t| && ContainsAt(t, s, i);
    var j :| 0 <= j <= |s| && ContainsAt(s, u, j);
    assert forall m :: 0 <= m < |s| ==> s[m] == t[i..i + |s|][m] == t[i + m];
    assert t[i + j..i + j + |u|] == s[j..j + |u|];
    assert ContainsAt(t, u, i + j);
  }

  /** Concatenation of the parts. */
  function Concat(parts: seq<string>): string {
    if |parts| == 0 then [] else parts[0] + Concat(parts[1..])
  }

  lemma {:induction false} ConcatContains(parts: seq<string>, i: nat)
    requires i < |parts|
    ensures Contains(Concat(parts), parts[i])
  {
    var rest := Concat(parts[1..]);
    assert Concat(parts) == parts[0] + rest;
    if i == 0 {
      ContainsMiddle([], parts[0], rest);
      assert [] + parts[0] + rest == parts[0] + rest;
    } else {
      ConcatContains(parts[1..], i - 1);
      assert parts[1..][i - 1] == parts[i];
      ContainsMiddle(parts[0], rest, []);
      assert parts[0] + rest + [] == parts[0] + rest;
      ContainsTrans(Concat(parts), rest, parts[i]);
    }
  }

  /** What a part contains, the concatenation contains, whatever
      follows it. */
  lemma {:induction false} ContainsInParts(parts: seq<string>, rest: string, i: nat, x: string)
    requires i < |parts| && Contains(parts[i], x)
    ensures Contains(Concat(parts) + rest, x)
  {
    ConcatContains(parts, i);
    ContainsTrans(Concat(parts), parts[i], x);
    ContainsPrefix(Concat(parts), rest, x);
  }

  /** What a string contains, the string followed by more contains. */
  lemma {:induction false} ContainsPrefix(a: string, b: string, x: string)
    requires Contains(a, x)
    ensures Contains(a + b, x)
  {
    var i :| 0 <= i <= |a| && ContainsAt(a, x, i);
    assert (a + b)[i..i + |x|] == a[i..i + |x|];
    assert ContainsAt(a + b, x, i);
  }

  /** What a string contains, any text around it contains. */
  lemma {:induction false} ContainsWrapped(pre: string, body: string, post: string, x: string)
    requires Contains(body, x)
    ensures Contains(pre + body + post, x)
  {
    ContainsMiddle(pre, body, post);
    ContainsTrans(pre + body + post, body, x);
  }
}
