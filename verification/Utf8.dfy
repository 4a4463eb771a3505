/** UTF-8 text: tables compare keys by their bytes, and that is the same order as
    comparing code points. */
module Utf8 {
  import opened Common
  import opened KeyRange

  function EncodeChar(c: char): (bytes: Bytes)
    ensures 1 <= |bytes| <= 4
  {
    var n := c as int;
    if n < 0x80 then [n]
    else if n < 0x800 then [0xC0 + n / 64, 0x80 + n % 64]
    else if n < 0x10000 then [0xE0 + n / 4096, 0x80 + n / 64 % 64, 0x80 + n % 64]
    else [0xF0 + n / 262144, 0x80 + n / 4096 % 64, 0x80 + n / 64 % 64, 0x80 + n % 64]
  }

  function Encode(s: string): Bytes {
    if s == "" then [] else EncodeChar(s[0]) + Encode(s[1..])
  }

  /** A leading byte and the bytes that follow it, six bits each. */
  function Payload(lead: int, mark: int, rest: Bytes): int {
    if rest == [] then lead - mark else 64 * Payload(lead, mark, rest[..|rest| - 1]) + (rest[|rest| - 1] as int - 0x80)
  }

  predicate Follow(rest: Bytes) {
    forall i :: 0 <= i < |rest| ==> 0x80 <= rest[i] <= 0xBF
  }

  /** The bytes of a character give its code point back, in the shortest form of RFC 3629. */
  predicate ReadsBack(b: Bytes, n: int) {
    && b != [] && Follow(b[1..])
    && if |b| == 1 then b[0] == n < 0x80
       else if |b| == 2 then 0xC0 <= b[0] <= 0xDF && n == Payload(b[0], 0xC0, b[1..]) >= 0x80
       else if |b| == 3 then 0xE0 <= b[0] <= 0xEF && n == Payload(b[0], 0xE0, b[1..]) >= 0x800
       else |b| == 4 && 0xF0 <= b[0] <= 0xF7 && n == Payload(b[0], 0xF0, b[1..]) >= 0x10000
  }

  lemma OneFollows(lead: int, mark: int, x: Byte)
    ensures Payload(lead, mark, [x]) == 64 * (lead - mark) + (x - 0x80)
  {
    assert [x][..0] == [];
  }

  lemma TwoFollow(lead: int, mark: int, x: Byte, y: Byte)
    ensures Payload(lead, mark, [x, y]) == 64 * (64 * (lead - mark) + (x - 0x80)) + (y - 0x80)
  {
    assert [x, y][..1] == [x];
    OneFollows(lead, mark, x);
  }

  lemma ThreeFollow(lead: int, mark: int, x: Byte, y: Byte, z: Byte)
    ensures Payload(lead, mark, [x, y, z]) == 64 * (64 * (64 * (lead - mark) + (x - 0x80)) + (y - 0x80)) + (z - 0x80)
  {
    assert [x, y, z][..2] == [x, y];
    TwoFollow(lead, mark, x, y);
  }

  lemma EncodeReads(c: char)
    ensures ReadsBack(EncodeChar(c), c as int)
  {
    var b, n := EncodeChar(c), c as int;
    Digits64(n);
    if n < 0x80 {
    } else if n < 0x800 {
      assert b[1..] == [b[1]];
      OneFollows(b[0], 0xC0, b[1]);
    } else if n < 0x10000 {
      assert b[1..] == [b[1], b[2]];
      TwoFollow(b[0], 0xE0, b[1], b[2]);
    } else {
      assert b[1..] == [b[1], b[2], b[3]];
      ThreeFollow(b[0], 0xF0, b[1], b[2], b[3]);
    }
  }

  predicate LessBytes(a: Bytes, b: Bytes) {
    if b == [] then false
    else if a == [] then true
    else if a[0] != b[0] then a[0] < b[0]
    else LessBytes(a[1..], b[1..])
  }

  predicate DiffersAt(a: Bytes, b: Bytes, i: nat) {
    i < |a| && i < |b| && a[..i] == b[..i] && a[i] < b[i]
  }

  lemma {:induction false} DifferenceDecides(a: Bytes, b: Bytes, i: nat, x: Bytes, y: Bytes)
    requires DiffersAt(a, b, i)
    ensures LessBytes(a + x, b + y) && !LessBytes(b + y, a + x)
  {
    if i > 0 {
      assert a[0] == a[..i][0] == b[..i][0] == b[0];
      assert a[1..][..i - 1] == a[..i][1..] == b[..i][1..] == b[1..][..i - 1];
      assert (a + x)[1..] == a[1..] + x && (b + y)[1..] == b[1..] + y;
      DifferenceDecides(a[1..], b[1..], i - 1, x, y);
    }
  }

  /** The four base-64 digits of a code point. */
  lemma Digits64(n: nat)
    requires n < 0x110000
    ensures n == 262144 * (n / 262144) + 4096 * (n / 4096 % 64) + 64 * (n / 64 % 64) + n % 64
    ensures n < 262144 ==> n / 4096 == n / 4096 % 64
    ensures n < 4096 ==> n / 64 == n / 64 % 64
  {
    assert n == 64 * (n / 64) + n % 64;
    assert n / 64 == 64 * (n / 64 / 64) + n / 64 % 64;
    assert n / 64 / 64 == n / 4096;
    assert n / 4096 == 64 * (n / 4096 / 64) + n / 4096 % 64;
    assert n / 4096 / 64 == n / 262144;
  }

  lemma FirstByteRange(c: char)
    ensures var n, b := c as int, EncodeChar(c)[0];
            if n < 0x80 then b < 0x80
            else if n < 0x800 then 0xC0 <= b < 0xE0
            else if n < 0x10000 then 0xE0 <= b < 0xF0
            else 0xF0 <= b
  {
  }

  /** Encodings of two characters differ first at a byte that orders them. */
  lemma CharsDiffer(c: char, d: char) returns (i: nat)
    requires c < d
    ensures DiffersAt(EncodeChar(c), EncodeChar(d), i)
  {
    var a, b := EncodeChar(c), EncodeChar(d);
    if |a| != |b| {
      FirstByteRange(c);
      FirstByteRange(d);
      i := 0;
    } else {
      i := SameLengthDiffer(c, d);
    }
  }

  lemma SameLengthDiffer(c: char, d: char) returns (i: nat)
    requires c < d && |EncodeChar(c)| == |EncodeChar(d)|
    ensures DiffersAt(EncodeChar(c), EncodeChar(d), i)
  {
    var a, b := EncodeChar(c), EncodeChar(d);
    var n, m := c as int, d as int;
    Digits64(n);
    Digits64(m);
    if |a| == 1 {
      i := 0;
    } else if |a| == 2 {
      i := if n / 64 != m / 64 then 0 else 1;
    } else if |a| == 3 {
      i := ThreeBytesDiffer(c, d);
    } else {
      i := FourBytesDiffer(c, d);
    }
  }

  lemma ThreeDigits(c: char)
    requires |EncodeChar(c)| == 3
    ensures var b := EncodeChar(c);
            && c as int == 4096 * (b[0] as int - 0xE0) + 64 * (b[1] as int - 0x80) + (b[2] as int - 0x80)
            && 0xE0 <= b[0] && 0x80 <= b[1] <= 0xBF && 0x80 <= b[2] <= 0xBF
  {
    Digits64(c as int);
  }

  lemma DigitsDiffer(a: Bytes, b: Bytes) returns (i: nat)
    requires |a| == |b| == 3 && 0x80 <= a[1] <= 0xBF && 0x80 <= a[2] <= 0xBF && 0x80 <= b[1] <= 0xBF && 0x80 <= b[2] <= 0xBF
    requires 4096 * (a[0] as int) + 64 * (a[1] as int) + a[2] as int < 4096 * (b[0] as int) + 64 * (b[1] as int) + b[2] as int
    ensures DiffersAt(a, b, i)
  {
    i := if a[0] != b[0] then 0 else if a[1] != b[1] then 1 else 2;
  }

  lemma ThreeBytesDiffer(c: char, d: char) returns (i: nat)
    requires c < d && |EncodeChar(c)| == 3 && |EncodeChar(d)| == 3
    ensures DiffersAt(EncodeChar(c), EncodeChar(d), i)
  {
    ThreeDigits(c);
    ThreeDigits(d);
    i := DigitsDiffer(EncodeChar(c), EncodeChar(d));
  }

  lemma FourBytesDiffer(c: char, d: char) returns (i: nat)
    requires c < d && |EncodeChar(c)| == 4 && |EncodeChar(d)| == 4
    ensures DiffersAt(EncodeChar(c), EncodeChar(d), i)
  {
    var n, m := c as int, d as int;
    Digits64(n);
    Digits64(m);
    i := if n / 262144 != m / 262144 then 0
         else if n / 4096 % 64 != m / 4096 % 64 then 1
         else if n / 64 % 64 != m / 64 % 64 then 2 else 3;
  }

  lemma {:induction false} CommonStem(stem: Bytes, a: Bytes, b: Bytes)
    ensures LessBytes(stem + a, stem + b) <==> LessBytes(a, b)
  {
    if stem == [] {
      assert stem + a == a && stem + b == b;
    } else {
      assert (stem + a)[1..] == stem[1..] + a && (stem + b)[1..] == stem[1..] + b;
      CommonStem(stem[1..], a, b);
    }
  }

  /** Byte order on UTF-8 text is code point order. */
  lemma {:induction false} EncodeKeepsOrder(s: string, t: string)
    ensures LessBytes(Encode(s), Encode(t)) <==> Less(s, t)
  {
    if s == "" || t == "" {
    } else if s[0] == t[0] {
      CommonStem(EncodeChar(s[0]), Encode(s[1..]), Encode(t[1..]));
      EncodeKeepsOrder(s[1..], t[1..]);
    } else if s[0] < t[0] {
      var i := CharsDiffer(s[0], t[0]);
      DifferenceDecides(EncodeChar(s[0]), EncodeChar(t[0]), i, Encode(s[1..]), Encode(t[1..]));
    } else {
      var i := CharsDiffer(t[0], s[0]);
      DifferenceDecides(EncodeChar(t[0]), EncodeChar(s[0]), i, Encode(t[1..]), Encode(s[1..]));
    }
  }

  lemma {:induction false} LessIsTotal(s: string, t: string)
    ensures Less(s, t) || Less(t, s) || s == t
  {
    if s != "" && t != "" && s[0] == t[0] {
      LessIsTotal(s[1..], t[1..]);
      assert s == [s[0]] + s[1..] && t == [t[0]] + t[1..];
    }
  }

  lemma {:induction false} LessBytesIrreflexive(a: Bytes)
    ensures !LessBytes(a, a)
  {
    if a != [] { LessBytesIrreflexive(a[1..]); }
  }

  lemma EncodeInjective(s: string, t: string)
    requires Encode(s) == Encode(t)
    ensures s == t
  {
    EncodeKeepsOrder(s, t);
    EncodeKeepsOrder(t, s);
    LessBytesIrreflexive(Encode(s));
    LessIsTotal(s, t);
  }
}
