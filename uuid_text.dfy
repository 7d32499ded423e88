/**
 * str(UUID): the canonical text of a UUID, 32 lower-case hexadecimal digits of its
 * 128-bit value in groups 8-4-4-4-12 separated by hyphens. It names a blob's file, so
 * the fact that matters is that it loses nothing: the value can be read back.
 */
module UuidText {
  import opened Models

  function Pow16(n: nat): (p: nat)
    ensures p > 0
  {
    if n == 0 then 1 else 16 * Pow16(n - 1)
  }

  function HexDigit(d: int): char
    requires 0 <= d < 16
  {
    "0123456789abcdef"[d]
  }

  function DigitValue(c: char): (d: nat)
    ensures d < 16
  {
    if '0' <= c <= '9' then (c - '0') as nat
    else if 'a' <= c <= 'f' then (c - 'a') as nat + 10
    else 0
  }

  lemma DigitRoundTrip(d: int)
    requires 0 <= d < 16
    ensures DigitValue(HexDigit(d)) == d
  {
  }

  /** The n lowest hexadecimal digits of x, most significant first ('%0nx' for x < 16^n). */
  function Hex(x: nat, n: nat): (s: string)
    ensures |s| == n
  {
    if n == 0 then "" else Hex(x / 16, n - 1) + [HexDigit(x % 16)]
  }

  /** The value of a string of hexadecimal digits, most significant first. */
  function HexValue(s: string): nat
  {
    if s == [] then 0 else HexValue(s[..|s| - 1]) * 16 + DigitValue(s[|s| - 1])
  }

  lemma {:induction false} HexRoundTrip(x: nat, n: nat)
    requires x < Pow16(n)
    ensures HexValue(Hex(x, n)) == x
  {
    if n > 0 {
      var q, d := x / 16, x % 16;
      assert x == q * 16 + d;
      assert q < Pow16(n - 1);
      var s := Hex(x, n);
      assert s == Hex(q, n - 1) + [HexDigit(d)];
      assert s[..n - 1] == Hex(q, n - 1);
      HexRoundTrip(q, n - 1);
      DigitRoundTrip(d);
      assert HexValue(s) == HexValue(Hex(q, n - 1)) * 16 + DigitValue(HexDigit(d));
    }
  }

  lemma {:induction false} Pow16Add(a: nat, b: nat)
    ensures Pow16(a + b) == Pow16(a) * Pow16(b)
  {
    if a > 0 {
      Pow16Add(a - 1, b);
    }
  }

  lemma Pow16Of32()
    ensures Pow16(32) == 0x1_0000_0000_0000_0000_0000_0000_0000_0000
  {
    assert Pow16(8) == 0x1_0000_0000;
    Pow16Add(8, 8);
    Pow16Add(16, 16);
  }

  /** Inserts the hyphens of the 8-4-4-4-12 layout into 32 digits. */
  function Hyphenate(h: string): (t: string)
    requires |h| == 32
    ensures |t| == 36
  {
    h[..8] + "-" + h[8..12] + "-" + h[12..16] + "-" + h[16..20] + "-" + h[20..]
  }

  /** Drops the four hyphen positions of the 8-4-4-4-12 layout. */
  function Unhyphenate(t: string): (h: string)
    requires |t| == 36
  {
    t[..8] + t[9..13] + t[14..18] + t[19..23] + t[24..]
  }

  lemma UnhyphenateHyphenate(h: string)
    requires |h| == 32
    ensures Unhyphenate(Hyphenate(h)) == h
  {
    var t := Hyphenate(h);
    assert t[..8] == h[..8];
    assert t[9..13] == h[8..12];
    assert t[14..18] == h[12..16];
    assert t[19..23] == h[16..20];
    assert t[24..] == h[20..];
    assert h == h[..8] + h[8..12] + h[12..16] + h[16..20] + h[20..];
  }

  /** str(u) */
  function UuidString(u: Uuid): (t: string)
    ensures |t| == 36
  {
    Hyphenate(Hex(u as nat, 32))
  }

  /** UUID(t) for a canonical 36-character string t. */
  function ParseUuidString(t: string): int
    requires |t| == 36
  {
    HexValue(Unhyphenate(t))
  }

  lemma UuidStringRoundTrip(u: Uuid)
    ensures ParseUuidString(UuidString(u)) == u as int
  {
    Pow16Of32();
    UnhyphenateHyphenate(Hex(u as nat, 32));
    HexRoundTrip(u as nat, 32);
  }

  /** Distinct UUIDs have distinct texts. */
  lemma UuidStringInjective(u: Uuid, v: Uuid)
    ensures UuidString(u) == UuidString(v) <==> u == v
  {
    UuidStringRoundTrip(u);
    UuidStringRoundTrip(v);
  }
}
