/** `sanitize_identifier` (generator/utils.rs), shared by both pipelines to
    turn resource and namespace names into Rust identifiers. */
module Identifiers {
  import opened Text

  predicate IsIdentChar(c: char) {
    IsAlphanumeric(c) || c == '_'
  }

  predicate IsIdentifier(s: string) {
    forall i :: 0 <= i < |s| ==> IsIdentChar(s[i])
  }

  /** Every character that may not appear in an identifier becomes '_';
      the others are kept, so the length is unchanged. */
  function Sanitize(s: string): (r: string)
    ensures |r| == |s|
    ensures IsIdentifier(r)
    ensures forall i :: 0 <= i < |s| ==> (r[i] == s[i] <==> IsIdentChar(s[i]))
    ensures forall i :: 0 <= i < |s| && !IsIdentChar(s[i]) ==> r[i] == '_'
  {
    seq(|s|, i requires 0 <= i < |s| => if IsIdentChar(s[i]) then s[i] else '_')
  }

  /** A string that already is an identifier is left alone, so sanitizing
      is idempotent. */
  lemma {:induction false} SanitizeIdentity(s: string)
    requires IsIdentifier(s)
    ensures Sanitize(s) == s
  {
  }

  lemma {:induction false} SanitizeIdempotent(s: string)
    ensures Sanitize(Sanitize(s)) == Sanitize(s)
  {
    SanitizeIdentity(Sanitize(s));
  }

  /** The worked examples of the source: "hello-world", "app.name",
      "my_var" and "test123". */
  lemma {:induction false} SanitizeExamples()
    ensures Sanitize("hello-world") == "hello_world"
    ensures Sanitize("app.name") == "app_name"
    ensures Sanitize("my_var") == "my_var"
    ensures Sanitize("test123") == "test123"
  {
    assert Sanitize("hello-world")[5] == '_';
    assert Sanitize("app.name")[3] == '_';
    SanitizeIdentity("my_var");
    SanitizeIdentity("test123");
  }

  /** The name given to a generated constant: the sanitized name in upper
      case. It is still an identifier. */
  function ConstName(name: string): (r: string)
    ensures |r| == |name|
    ensures IsIdentifier(r)
    ensures forall i :: 0 <= i < |r| ==> !IsAsciiLower(r[i])
  {
    ToUpper(Sanitize(name))
  }
}
