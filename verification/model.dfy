/** The intermediate representation of the current pipeline: resource keys
    with their derived ordering, resource kinds, number types and values,
    origins and nodes (generator/ir/model.rs). */
module Model {
  import opened Wrappers
  import opened Text

  // ---------------------------------------------------------------------
  // Keys

  /** A resource's identity: its namespace segments and its own name. */
  datatype ResourceKey = ResourceKey(namespace: seq<string>, name: string)

  /** `ResourceKey::from_path`: split on '/', drop empty segments, the last
      segment is the name and the others the namespace. */
  function FromPath(path: string): (k: ResourceKey)
    ensures '/' !in k.name
    ensures forall i :: 0 <= i < |k.namespace| ==> k.namespace[i] != [] && '/' !in k.namespace[i]
    ensures k.name == [] ==> k.namespace == [] && forall i :: 0 <= i < |path| ==> path[i] == '/'
  {
    var parts := NonEmpty(Split(path, '/'));
    if |parts| == 0 then
      NoSegmentsAllSlashes(path);
      ResourceKey([], [])
    else
      ResourceKey(parts[..|parts| - 1], parts[|parts| - 1])
  }

  /** A path whose '/'-separated segments are all empty consists of slashes. */
  lemma {:induction false} NoSegmentsAllSlashes(path: string)
    requires NonEmpty(Split(path, '/')) == []
    ensures forall i :: 0 <= i < |path| ==> path[i] == '/'
  {
    var parts := Split(path, '/');
    EmptiesJoinToSeparators(parts, path, '/');
  }

  /** Text that joins only empty parts consists of separators. */
  lemma {:induction false} EmptiesJoinToSeparators(parts: seq<string>, s: string, sep: char)
    requires NonEmpty(parts) == [] && Join(parts, [sep]) == s
    ensures forall i :: 0 <= i < |s| ==> s[i] == sep
  {
    NonEmptyEmpty(parts);
    JoinOfEmpties(parts, sep);
  }

  lemma {:induction false} NonEmptyEmpty(parts: seq<string>)
    requires NonEmpty(parts) == []
    ensures forall i :: 0 <= i < |parts| ==> parts[i] == []
  {
    if |parts| > 0 {
      NonEmptyEmpty(parts[1..]);
      forall i | 0 <= i < |parts| ensures parts[i] == [] {
        if i > 0 {
          assert parts[i] == parts[1..][i - 1];
        }
      }
    }
  }

  lemma {:induction false} JoinOfEmpties(parts: seq<string>, sep: char)
    requires forall i :: 0 <= i < |parts| ==> parts[i] == []
    ensures forall i :: 0 <= i < |Join(parts, [sep])| ==> Join(parts, [sep])[i] == sep
  {
    if |parts| > 1 {
      JoinOfEmpties(parts[1..], sep);
      assert Join(parts, [sep]) == [sep] + Join(parts[1..], [sep]);
    }
  }

  /** `ResourceKey::full_name`: the bare name without a namespace, otherwise
      the namespace and the name joined with '/'. */
  function FullName(k: ResourceKey): string {
    if |k.namespace| == 0 then k.name else Join(k.namespace, "/") + "/" + k.name
  }

  /** A path with no empty segment is reproduced by `full_name`. */
  lemma {:induction false} FullNameOfPath(path: string)
    requires forall i :: 0 <= i < |Split(path, '/')| ==> Split(path, '/')[i] != []
    ensures FullName(FromPath(path)) == path
  {
    var parts := Split(path, '/');
    NonEmptyIdentity(parts);
    if |parts| > 1 {
      var init := parts[..|parts| - 1];
      JoinSnoc(init, parts[|parts| - 1], "/");
      assert init + [parts[|parts| - 1]] == parts;
    }
  }

  /** A key whose name is non-empty and whose segments are non-empty and
      free of '/' is recovered from its full name. */
  lemma {:induction false} FromPathOfFullName(k: ResourceKey)
    requires k.name != [] && '/' !in k.name
    requires forall i :: 0 <= i < |k.namespace| ==> k.namespace[i] != [] && '/' !in k.namespace[i]
    ensures FromPath(FullName(k)) == k
  {
    var parts := k.namespace + [k.name];
    if |k.namespace| > 0 {
      JoinSnoc(k.namespace, k.name, "/");
    }
    assert FullName(k) == Join(parts, "/");
    SplitOfJoin(parts, '/');
    NonEmptyIdentity(parts);
    assert parts[..|parts| - 1] == k.namespace;
  }

  lemma {:induction false} SplitOfJoin(parts: seq<string>, sep: char)
    requires |parts| > 0
    requires forall i :: 0 <= i < |parts| ==> sep !in parts[i]
    ensures Split(Join(parts, [sep]), sep) == parts
  {
    var s := Join(parts, [sep]);
    if |parts| == 1 {
      assert IndexOf(s, sep).None?;
    } else {
      SplitOfJoin(parts[1..], sep);
      var rest := Join(parts[1..], [sep]);
      assert s == parts[0] + [sep] + rest;
      IndexOfAfter(parts[0], sep, rest);
      assert s[..|parts[0]|] == parts[0];
      assert s[|parts[0]| + 1..] == rest;
      assert [parts[0]] + parts[1..] == parts;
    }
  }

  // ---------------------------------------------------------------------
  // Derived ordering: lexicographic on the namespace, then on the name

  /** Rust `String` ordering: byte-wise, which on UTF-8 is code-point order. */
  predicate StringLess(a: string, b: string) {
    if |a| == 0 then |b| > 0
    else if |b| == 0 then false
    else a[0] < b[0] || (a[0] == b[0] && StringLess(a[1..], b[1..]))
  }

  /** `Vec<String>` ordering. */
  predicate NamespaceLess(a: seq<string>, b: seq<string>) {
    if |a| == 0 then |b| > 0
    else if |b| == 0 then false
    else StringLess(a[0], b[0]) || (a[0] == b[0] && NamespaceLess(a[1..], b[1..]))
  }

  /** The derived `Ord` of `ResourceKey`: fields in declaration order. */
  predicate KeyLess(x: ResourceKey, y: ResourceKey) {
    NamespaceLess(x.namespace, y.namespace)
    || (x.namespace == y.namespace && StringLess(x.name, y.name))
  }

  lemma {:induction false} StringLessIrreflexive(a: string)
    ensures !StringLess(a, a)
  {
    if |a| > 0 {
      StringLessIrreflexive(a[1..]);
    }
  }

  lemma {:induction false} StringLessTransitive(a: string, b: string, c: string)
    requires StringLess(a, b) && StringLess(b, c)
    ensures StringLess(a, c)
  {
    if |a| > 0 && |b| > 0 && |c| > 0 && a[0] == b[0] && b[0] == c[0] {
      StringLessTransitive(a[1..], b[1..], c[1..]);
    }
  }

  lemma {:induction false} StringLessTotal(a: string, b: string)
    ensures a == b || StringLess(a, b) || StringLess(b, a)
  {
    if |a| > 0 && |b| > 0 && a[0] == b[0] {
      StringLessTotal(a[1..], b[1..]);
      if a[1..] == b[1..] {
        assert a == [a[0]] + a[1..] && b == [b[0]] + b[1..];
      }
    }
  }

  lemma {:induction false} NamespaceLessIrreflexive(a: seq<string>)
    ensures !NamespaceLess(a, a)
  {
    if |a| > 0 {
      StringLessIrreflexive(a[0]);
      NamespaceLessIrreflexive(a[1..]);
    }
  }

  lemma {:induction false} NamespaceLessTransitive(a: seq<string>, b: seq<string>, c: seq<string>)
    requires NamespaceLess(a, b) && NamespaceLess(b, c)
    ensures NamespaceLess(a, c)
  {
    if |a| > 0 && |b| > 0 && |c| > 0 {
      if StringLess(a[0], b[0]) && StringLess(b[0], c[0]) {
        StringLessTransitive(a[0], b[0], c[0]);
      } else if a[0] == b[0] && b[0] == c[0] {
        NamespaceLessTransitive(a[1..], b[1..], c[1..]);
      }
    }
  }

  lemma {:induction false} NamespaceLessTotal(a: seq<string>, b: seq<string>)
    ensures a == b || NamespaceLess(a, b) || NamespaceLess(b, a)
  {
    if |a| > 0 && |b| > 0 {
      StringLessTotal(a[0], b[0]);
      if a[0] == b[0] {
        NamespaceLessTotal(a[1..], b[1..]);
        if a[1..] == b[1..] {
          assert a == [a[0]] + a[1..] && b == [b[0]] + b[1..];
        }
      }
    }
  }

  /** The key order is a strict total order. */
  lemma {:induction false} KeyLessIrreflexive(x: ResourceKey)
    ensures !KeyLess(x, x)
  {
    NamespaceLessIrreflexive(x.namespace);
    StringLessIrreflexive(x.name);
  }

  lemma {:induction false} KeyLessTransitive(x: ResourceKey, y: ResourceKey, z: ResourceKey)
    requires KeyLess(x, y) && KeyLess(y, z)
    ensures KeyLess(x, z)
  {
    if NamespaceLess(x.namespace, y.namespace) && NamespaceLess(y.namespace, z.namespace) {
      NamespaceLessTransitive(x.namespace, y.namespace, z.namespace);
    } else if x.namespace == y.namespace && y.namespace == z.namespace {
      StringLessTransitive(x.name, y.name, z.name);
    }
  }

  lemma {:induction false} KeyLessTotal(x: ResourceKey, y: ResourceKey)
    ensures x == y || KeyLess(x, y) || KeyLess(y, x)
  {
    NamespaceLessTotal(x.namespace, y.namespace);
    StringLessTotal(x.name, y.name);
  }

  lemma {:induction false} KeyLessAsymmetric(x: ResourceKey, y: ResourceKey)
    requires KeyLess(x, y)
    ensures !KeyLess(y, x)
  {
    if KeyLess(y, x) {
      KeyLessTransitive(x, y, x);
      KeyLessIrreflexive(x);
    }
  }

  /** Keys in the same namespace are ordered by name alone; a key in a
      namespace that is a strict prefix of another's comes first. */
  lemma {:induction false} KeyOrderByNamespaceThenName(x: ResourceKey, y: ResourceKey)
    ensures x.namespace == y.namespace ==> (KeyLess(x, y) <==> StringLess(x.name, y.name))
    ensures NamespaceLess(x.namespace, y.namespace) ==> KeyLess(x, y)
  {
    NamespaceLessIrreflexive(x.namespace);
  }

  // ---------------------------------------------------------------------
  // Kinds, number types and values

  datatype ResourceKind =
    | StringKind
    | NumberKind
    | BoolKind
    | ColorKind
    | UrlKind
    | DimensionKind
    | ArrayKind(element: string)
    | TemplateKind
    | CustomKind(custom: string)

  /** The Rust type requested by `<number type="...">`. */
  datatype NumberType = I8 | I16 | I32 | I64 | U8 | U16 | U32 | U64 | F32 | F64 {

    /** `NumberType::as_str`. */
    function AsStr(): string {
      match this
      case I8 => "i8"
      case I16 => "i16"
      case I32 => "i32"
      case I64 => "i64"
      case U8 => "u8"
      case U16 => "u16"
      case U32 => "u32"
      case U64 => "u64"
      case F32 => "f32"
      case F64 => "f64"
    }

    predicate IsInteger() {
      !(F32? || F64?)
    }

    /** Smallest and largest value of an integer type. */
    function Min(): int
      requires IsInteger()
    {
      match this
      case I8 => -0x80
      case I16 => -0x8000
      case I32 => -0x8000_0000
      case I64 => -0x8000_0000_0000_0000
      case _ => 0
    }

    function Max(): int
      requires IsInteger()
    {
      match this
      case I8 => 0x7F
      case I16 => 0x7FFF
      case I32 => 0x7FFF_FFFF
      case I64 => 0x7FFF_FFFF_FFFF_FFFF
      case U8 => 0xFF
      case U16 => 0xFFFF
      case U32 => 0xFFFF_FFFF
      case U64 => 0xFFFF_FFFF_FFFF_FFFF
    }

    predicate IsSigned() {
      I8? || I16? || I32? || I64?
    }
  }

  /** The type names accepted as a number hint, the inverse of `as_str`. */
  function ParseNumberType(s: string): (r: Option<NumberType>)
    ensures r.Some? ==> r.value.AsStr() == s
  {
    if s == "i8" then Some(I8)
    else if s == "i16" then Some(I16)
    else if s == "i32" then Some(I32)
    else if s == "i64" then Some(I64)
    else if s == "u8" then Some(U8)
    else if s == "u16" then Some(U16)
    else if s == "u32" then Some(U32)
    else if s == "u64" then Some(U64)
    else if s == "f32" then Some(F32)
    else if s == "f64" then Some(F64)
    else None
  }

  lemma {:induction false} ParseNumberTypeOfAsStr(t: NumberType)
    ensures ParseNumberType(t.AsStr()) == Some(t)
  {
  }

  const I64Min: int := -0x8000_0000_0000_0000
  const I64Max: int := 0x7FFF_FFFF_FFFF_FFFF

  type Int64 = i: int | I64Min <= i <= I64Max

  /** A parsed numeric value. Floating-point values are kept as the text
      that the float formatter renders. */
  datatype NumberValue =
    | Int(intValue: Int64)
    | Float(rendered: string)
    | BigDecimal(literal: string)
    | Typed(typedLiteral: string, ty: NumberType)

  /** The declared shape of a template parameter. */
  datatype TemplateParamValue =
    | StringParam
    | NumberParam(explicitType: Option<string>)
    | BoolParam
    | ColorParam

  datatype TemplateParam = TemplateParam(name: string, value: TemplateParamValue)

  datatype ResourceValue =
    | StringValue(text: string)
    | NumberVal(number: NumberValue)
    | BoolValue(flag: bool)
    | ColorValue(hex: string)
    | TemplateValue(template: string, params: seq<TemplateParam>)

  /** Where a node was declared. */
  datatype ResourceOrigin = ResourceOrigin(file: string, line: Option<nat>, profile: Option<string>, isTest: bool)

  /** `ResourceOrigin::new`: no line and no profile recorded. */
  function NewOrigin(file: string, isTest: bool): (o: ResourceOrigin)
    ensures o.file == file && o.isTest == isTest
    ensures o.line.None? && o.profile.None?
  {
    ResourceOrigin(file, None, None, isTest)
  }

  datatype ResourceNode = ResourceNode(kind: ResourceKind, value: ResourceValue, origin: ResourceOrigin)
}
