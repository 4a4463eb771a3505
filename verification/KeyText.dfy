/** Text that keys are made of: decimal numbers, lower-case hexadecimal and the
    `|` separator. */
module KeyText {
  import opened Common
  import opened KeyRange

  const SEPARATOR: string := "|"

  function Digit(d: nat): (c: char)
    requires d < 16
    ensures c != '|'
    ensures d < 10 ==> c as int == '0' as int + d
  {
    "0123456789abcdef"[d]
  }

  lemma DigitInjective(d: nat, e: nat)
    requires d < 16 && e < 16 && Digit(d) == Digit(e)
    ensures d == e
  {
  }

  function Decimal(n: nat): (s: string)
    ensures s != ""
  {
    if n < 10 then [Digit(n)] else Decimal(n / 10) + [Digit(n % 10)]
  }

  /** Decimal text of exactly `width` digits, zero-padded on the left. */
  function Padded(n: nat, width: nat): (s: string)
    ensures |s| == width
  {
    if width == 0 then "" else Padded(n / 10, width - 1) + [Digit(n % 10)]
  }

  function Hex(bytes: Bytes): (s: string)
    ensures |s| == 2 * |bytes|
  {
    if bytes == [] then "" else [Digit(bytes[0] / 16), Digit(bytes[0] % 16)] + Hex(bytes[1..])
  }

  predicate PipeFree(s: string) {
    '|' !in s
  }

  lemma {:induction false} DecimalPipeFree(n: nat)
    ensures PipeFree(Decimal(n))
  {
    if n >= 10 { DecimalPipeFree(n / 10); }
  }

  lemma {:induction false} HexPipeFree(bytes: Bytes)
    ensures PipeFree(Hex(bytes))
  {
    if bytes != [] { HexPipeFree(bytes[1..]); }
  }

  lemma {:induction false} DecimalInjective(n: nat, m: nat)
    requires Decimal(n) == Decimal(m)
    ensures n == m
  {
    var s, t := Decimal(n), Decimal(m);
    if n < 10 && m < 10 {
      assert s[0] == Digit(n) && t[0] == Digit(m);
      DigitInjective(n, m);
    } else if n >= 10 && m >= 10 {
      assert s[..|s| - 1] == Decimal(n / 10) && t[..|t| - 1] == Decimal(m / 10);
      assert s[|s| - 1] == Digit(n % 10) && t[|t| - 1] == Digit(m % 10);
      DecimalInjective(n / 10, m / 10);
      DigitInjective(n % 10, m % 10);
    }
  }

  lemma {:induction false} HexInjective(a: Bytes, b: Bytes)
    requires Hex(a) == Hex(b)
    ensures a == b
  {
    assert |a| == |b|;
    if a != [] {
      assert Hex(a)[0] == Digit(a[0] / 16) && Hex(a)[1] == Digit(a[0] % 16) && Hex(a)[2..] == Hex(a[1..]);
      assert Hex(b)[0] == Digit(b[0] / 16) && Hex(b)[1] == Digit(b[0] % 16) && Hex(b)[2..] == Hex(b[1..]);
      DigitInjective(a[0] / 16, b[0] / 16);
      DigitInjective(a[0] % 16, b[0] % 16);
      HexInjective(a[1..], b[1..]);
      assert a == [a[0]] + a[1..] && b == [b[0]] + b[1..];
    }
  }

  function Pow10(k: nat): nat {
    if k == 0 then 1 else 10 * Pow10(k - 1)
  }

  lemma {:induction false} LessSnoc(a: string, b: string, x: char, y: char)
    requires |a| == |b|
    ensures Less(a + [x], b + [y]) <==> Less(a, b) || (a == b && x < y)
  {
    if a == "" {
      assert a + [x] == [x] && b + [y] == [y];
    } else {
      assert (a + [x])[1..] == a[1..] + [x] && (b + [y])[1..] == b[1..] + [y];
      LessSnoc(a[1..], b[1..], x, y);
      assert a == b <==> a[0] == b[0] && a[1..] == b[1..];
    }
  }

  lemma {:induction false} LessIrreflexive(a: string)
    ensures !Less(a, a)
  {
    if a != "" { LessIrreflexive(a[1..]); }
  }

  lemma {:induction false} LessCommonStem(stem: string, a: string, b: string)
    ensures Less(stem + a, stem + b) <==> Less(a, b)
  {
    if stem == "" {
      assert stem + a == a && stem + b == b;
    } else {
      assert (stem + a)[1..] == stem[1..] + a && (stem + b)[1..] == stem[1..] + b;
      LessCommonStem(stem[1..], a, b);
    }
  }

  /** Fixed-width decimals sort as text exactly as they do as numbers. */
  lemma {:induction false} PaddedOrder(n: nat, m: nat, width: nat)
    requires n < Pow10(width) && m < Pow10(width)
    ensures Less(Padded(n, width), Padded(m, width)) <==> n < m
    ensures Padded(n, width) == Padded(m, width) <==> n == m
  {
    if width > 0 {
      var a, b := Padded(n / 10, width - 1), Padded(m / 10, width - 1);
      PaddedOrder(n / 10, m / 10, width - 1);
      LessSnoc(a, b, Digit(n % 10), Digit(m % 10));
      assert (a + [Digit(n % 10)])[..width - 1] == a && (b + [Digit(m % 10)])[..width - 1] == b;
      assert (a + [Digit(n % 10)])[width - 1] == Digit(n % 10);
      assert (b + [Digit(m % 10)])[width - 1] == Digit(m % 10);
    }
  }

  /** A pipe-free first field can be read back from a key. */
  lemma FirstFieldUnique(x: string, r: string, y: string, s: string)
    requires PipeFree(x) && PipeFree(y)
    requires x + SEPARATOR + r <= y + SEPARATOR + s
    ensures x == y && r <= s
  {
    var a, b := x + SEPARATOR + r, y + SEPARATOR + s;
    assert a[|x|] == '|' && b[|y|] == '|';
    assert forall i :: 0 <= i < |x| ==> a[i] == x[i] != '|';
    assert forall i :: 0 <= i < |y| ==> b[i] == y[i] != '|';
    assert |x| == |y|;
    assert x == a[..|x|] == b[..|x|] == y;
    assert r == a[|x| + 1..] && s == b[|x| + 1..];
    assert forall i :: 0 <= i < |r| ==> r[i] == a[|x| + 1 + i];
  }
}
