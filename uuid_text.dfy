/**
  The six numeric groups both C generators hand to
  `snprintf(buffer, 40, "%08x-%04x-%04x-%04x-%04x%08x", a, b, c, d, e, f)`,
  and the text that call leaves in the buffer.
 */
module UuidText {
  import Hex

  /** The six `unsigned int` groups a..f. */
  datatype Fields = Fields(a: bv32, b: bv32, c: bv32, d: bv32, e: bv32, f: bv32)

  /** `sizeof(buffer)`: snprintf keeps at most 39 characters and the terminator. */
  const BUFFER_SIZE: nat := 40

  /** Assignment of a 64-bit value to an `unsigned int`: keep the low 32 bits. */
  function Low32(x: bv64): bv32 {
    (x & 0xFFFF_FFFF) as bv32
  }

  /**
    The 64-bit time both layouts spread over a (bits 63..32), b (31..16), the
    low twelve bits of c (15..4) and bits 13..10 of d (3..0).
   */
  function TimeOf(g: Fields): bv64 {
    (g.a as bv64 << 32) | (g.b as bv64 << 16) | ((g.c & 0x0fff) as bv64 << 4) | ((g.d >> 10) & 0xf) as bv64
  }

  /** The groups as printed, before snprintf cuts to the buffer. */
  function Printed(g: Fields): string {
    Hex.Printf(g.a as nat, 8) + "-" + Hex.Printf(g.b as nat, 4) + "-" + Hex.Printf(g.c as nat, 4) + "-"
    + Hex.Printf(g.d as nat, 4) + "-" + Hex.Printf(g.e as nat, 4) + Hex.Printf(g.f as nat, 8)
  }

  /** What snprintf leaves in the 40-byte buffer (without the terminator). */
  function Format(g: Fields): string {
    var text := Printed(g);
    if |text| < BUFFER_SIZE then text else text[..BUFFER_SIZE - 1]
  }

  lemma Below16(x: bv32)
    requires x <= 0xffff
    ensures x as nat < 0x1_0000
  {
    Narrow16(x);
    Widen16(x as bv16);
  }

  lemma Below32(x: bv32)
    ensures x as nat < 0x1_0000_0000
  {
  }

  lemma Below20(x: bv32)
    requires 0x1_0000 <= x < 0x10_0000
    ensures 0x1_0000 <= x as nat < 0x10_0000
  {
    Narrow20(x);
    Widen20(x as bv20);
  }

  lemma Narrow20(x: bv32)
    requires 0x1_0000 <= x < 0x10_0000
    ensures x == (x as bv20) as bv32 && 0x1_0000 <= x as bv20
  {
  }

  lemma Widen20(y: bv20)
    requires 0x1_0000 <= y
    ensures (y as bv32) as int == y as int && 0x1_0000 <= y as int < 0x10_0000
  {
  }

  lemma Narrow16(x: bv32)
    requires x <= 0xffff
    ensures x == (x as bv16) as bv32
  {
  }

  lemma Widen16(y: bv16)
    ensures (y as bv32) as int == y as int < 0x1_0000
  {
  }

  /** With b..e below 0x10000 every group prints at its own width and nothing is cut. */
  lemma PrintedFits(g: Fields)
    requires g.b <= 0xffff && g.c <= 0xffff && g.d <= 0xffff && g.e <= 0xffff
    ensures |Hex.Printf(g.a as nat, 8)| == 8 && |Hex.Printf(g.f as nat, 8)| == 8
    ensures |Hex.Printf(g.b as nat, 4)| == 4 && |Hex.Printf(g.c as nat, 4)| == 4
    ensures |Hex.Printf(g.d as nat, 4)| == 4 && |Hex.Printf(g.e as nat, 4)| == 4
    ensures Format(g) == Printed(g)
  {
    Hex.Pow16Values();
    Below32(g.a);
    Below32(g.f);
    Below16(g.b);
    Below16(g.c);
    Below16(g.d);
    Below16(g.e);
  }

  /** Where the six groups and the four hyphens sit in the concatenation. */
  lemma Layout(pa: string, pb: string, pc: string, pd: string, pe: string, pf: string)
    requires |pa| == 8 && |pb| == 4 && |pc| == 4 && |pd| == 4 && |pe| == 4 && |pf| == 8
    ensures var s := pa + "-" + pb + "-" + pc + "-" + pd + "-" + pe + pf;
      && |s| == 36
      && s[8] == '-' && s[13] == '-' && s[18] == '-' && s[23] == '-'
      && s[..8] == pa && s[9..13] == pb && s[14..18] == pc && s[19..23] == pd && s[24..28] == pe && s[28..] == pf
  {
    var s := pa + "-" + pb + "-" + pc + "-" + pd + "-" + pe + pf;
    var r4 := pe + pf;
    var r3 := pd + "-" + r4;
    var r2 := pc + "-" + r3;
    var r1 := pb + "-" + r2;
    assert s == pa + "-" + r1;
    assert s[9..] == r1;
    assert r1[5..] == r2;
    assert r2[5..] == r3;
    assert r3[5..] == r4;
    assert s[9..13] == r1[..4];
    assert s[14..18] == r2[..4];
    assert s[19..23] == r3[..4];
    assert s[24..28] == r4[..4];
    assert s[28..] == r4[4..];
  }

  /** The length and the hyphens alone, for callers that need no more. */
  lemma Hyphenated(g: Fields)
    requires g.b <= 0xffff && g.c <= 0xffff && g.d <= 0xffff && g.e <= 0xffff
    ensures var s := Format(g);
      && |s| == 36 && s[8] == '-' && s[13] == '-' && s[18] == '-' && s[23] == '-'
  {
    PrintedFits(g);
    Layout(Hex.Printf(g.a as nat, 8), Hex.Printf(g.b as nat, 4), Hex.Printf(g.c as nat, 4),
           Hex.Printf(g.d as nat, 4), Hex.Printf(g.e as nat, 4), Hex.Printf(g.f as nat, 8));
  }

  /**
    When b, c, d and e fit in four hexadecimal digits, the text is the
    36-character UUID shape: hyphens at 8, 13, 18 and 23, hexadecimal digits
    elsewhere, and each group reads back as the number printed there.
   */
  lemma FormatShape(g: Fields)
    requires g.b <= 0xffff && g.c <= 0xffff && g.d <= 0xffff && g.e <= 0xffff
    ensures var s := Format(g);
      && |s| == 36
      && s[8] == '-' && s[13] == '-' && s[18] == '-' && s[23] == '-'
      && Hex.AllHexDigits(s[..8]) && Hex.Value(s[..8]) == g.a as nat
      && Hex.AllHexDigits(s[9..13]) && Hex.Value(s[9..13]) == g.b as nat
      && Hex.AllHexDigits(s[14..18]) && Hex.Value(s[14..18]) == g.c as nat
      && Hex.AllHexDigits(s[19..23]) && Hex.Value(s[19..23]) == g.d as nat
      && Hex.AllHexDigits(s[24..28]) && Hex.Value(s[24..28]) == g.e as nat
      && Hex.AllHexDigits(s[28..]) && Hex.Value(s[28..]) == g.f as nat
  {
    PrintedFits(g);
    Layout(Hex.Printf(g.a as nat, 8), Hex.Printf(g.b as nat, 4), Hex.Printf(g.c as nat, 4),
           Hex.Printf(g.d as nat, 4), Hex.Printf(g.e as nat, 4), Hex.Printf(g.f as nat, 8));
  }

  /**
    When c carries the version nibble 4 and d the variant bits 10, the text's
    third group reads back with leading digit 4 and its fourth group with a
    value in 0x8000..0xbfff.
   */
  lemma MarkedText(g: Fields)
    requires g.b <= 0xffff && g.c <= 0xffff && g.d <= 0xffff && g.e <= 0xffff
    requires g.c >> 12 == 4 && g.d >> 14 == 2
    ensures var s := Format(g);
      && |s| == 36 && s[8] == '-' && s[13] == '-' && s[18] == '-' && s[23] == '-'
      && Hex.AllHexDigits(s[14..18]) && 0x4000 <= Hex.Value(s[14..18]) < 0x5000
      && Hex.AllHexDigits(s[19..23]) && 0x8000 <= Hex.Value(s[19..23]) < 0xc000
  {
    FormatShape(g);
    MarkerNibbles(g.c, g.d);
  }

  /** The markers, read through the numbers' values rather than their bits. */
  lemma MarkerNibbles(c: bv32, d: bv32)
    requires c >> 12 == 4 && d >> 14 == 2 && c <= 0xffff && d <= 0xffff
    ensures 0x4000 <= c as nat < 0x5000 && 0x8000 <= d as nat < 0xc000
  {
    Narrow16(c);
    Narrow16(d);
    BoundsAsNat(c as bv16, d as bv16);
  }

  lemma BoundsAsNat(c: bv16, d: bv16)
    requires 0x4000 <= c < 0x5000 && 0x8000 <= d < 0xc000
    ensures 0x4000 <= (c as bv32) as nat < 0x5000 && 0x8000 <= (d as bv32) as nat < 0xc000
  {
    Widen16(c);
    Widen16(d);
  }
}
