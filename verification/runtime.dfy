/** The runtime types the generated typed modules build on (src/lib.rs):
    `Color`, a colour with an alpha channel, and `UrlParts`, a URL split
    at build time. */
module Runtime {
  /** `u8`. */
  type U8 = x: int | 0 <= x < 0x100

  /** `u32`. */
  type U32 = x: int | 0 <= x < 0x1_0000_0000

  /** `Color`, with its fields in the order of `Color::new(r, g, b, a)`. */
  datatype Color = Color(r: U8, g: U8, b: U8, a: U8)

  /** `UrlParts`: its accessors are the fields. */
  datatype UrlParts = UrlParts(scheme: string, host: string, path: string)

  predicate IsUpperHexDigit(c: char) {
    '0' <= c <= '9' || 'A' <= c <= 'F'
  }

  /** The upper-case hexadecimal digit for `d`. */
  function HexDigit(d: nat): (c: char)
    requires d < 16
    ensures IsUpperHexDigit(c)
  {
    if d < 10 then ('0' as int + d) as char else ('A' as int + d - 10) as char
  }

  /** `format!("{:02X}", x)`: two upper-case digits, high one first. */
  function Hex2(x: U8): (s: string)
    ensures |s| == 2 && IsUpperHexDigit(s[0]) && IsUpperHexDigit(s[1])
  {
    [HexDigit(x / 16), HexDigit(x % 16)]
  }

  /** `as_hex`: "#RRGGBB" for an opaque colour, "#AARRGGBB" otherwise. */
  function AsHex(c: Color): (s: string)
    ensures |s| == (if c.a == 255 then 7 else 9)
    ensures s[0] == '#' && forall i :: 1 <= i < |s| ==> IsUpperHexDigit(s[i])
  {
    if c.a == 255 then "#" + Hex2(c.r) + Hex2(c.g) + Hex2(c.b)
    else "#" + Hex2(c.a) + Hex2(c.r) + Hex2(c.g) + Hex2(c.b)
  }

  /** `as_rgb`. */
  function AsRgb(c: Color): (U8, U8, U8) {
    (c.r, c.g, c.b)
  }

  /** `as_u32`: alpha, red, green and blue from the high byte down. The
      source ORs the bytes shifted by 24, 16, 8 and 0 bits; they occupy
      disjoint bits, so the OR is the sum written here. */
  function AsU32(c: Color): U32 {
    c.a * 0x100_0000 + c.r * 0x1_0000 + c.g * 0x100 + c.b
  }

  /** A byte below a multiple of 0x100: quotient and remainder. */
  lemma {:induction false} DivModByte(hi: nat, lo: nat)
    requires lo < 0x100
    ensures (hi * 0x100 + lo) / 0x100 == hi && (hi * 0x100 + lo) % 0x100 == lo
  {
  }

  /** Each byte of the colour can be read back from `as_u32`, so it loses
      nothing: the alpha is the top byte and blue the bottom one. */
  lemma {:induction false} AsU32Bytes(c: Color)
    ensures AsU32(c) / 0x100_0000 == c.a
    ensures (AsU32(c) / 0x1_0000) % 0x100 == c.r
    ensures (AsU32(c) / 0x100) % 0x100 == c.g
    ensures AsU32(c) % 0x100 == c.b
  {
    var x := AsU32(c);
    var y := c.a * 0x1_0000 + c.r * 0x100 + c.g;
    var z := c.a * 0x100 + c.r;
    assert x == y * 0x100 + c.b;
    assert y == z * 0x100 + c.g;
    DivModByte(y, c.b);
    DivModByte(z, c.g);
    DivModByte(c.a, c.r);
    assert x / 0x1_0000 == y / 0x100;
    assert x / 0x100_0000 == z / 0x100;
  }

  /** Two colours with the same `as_u32` are the same colour. */
  lemma {:induction false} AsU32Injective(c: Color, d: Color)
    requires AsU32(c) == AsU32(d)
    ensures c == d
  {
    AsU32Bytes(c);
    AsU32Bytes(d);
  }

  /** `as_rgb` is what remains of `as_u32` without the alpha byte. */
  lemma {:induction false} AsRgbLowBytes(c: Color)
    ensures AsU32(c) % 0x100_0000 == AsRgb(c).0 * 0x1_0000 + AsRgb(c).1 * 0x100 + AsRgb(c).2
  {
    AsU32Bytes(c);
  }

  /** The colour of the source's own example, `Color::new(0x12, 0x34,
      0x56, 0x78)`, is 0x78123456 and has RGB (0x12, 0x34, 0x56). */
  lemma {:induction false} ColorExample(c: Color)
    requires c == Color(0x12, 0x34, 0x56, 0x78)
    ensures AsU32(c) == 0x7812_3456
    ensures AsRgb(c) == (0x12, 0x34, 0x56)
    ensures AsHex(c) == "#78123456"
  {
    assert Hex2(0x78) == "78" && Hex2(0x12) == "12" && Hex2(0x34) == "34" && Hex2(0x56) == "56";
  }
}
