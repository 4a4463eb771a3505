/** Bytes on the wire: little-endian numbers and hexadecimal addresses. */
module Wire {
  import opened Common

  function Pow256(n: nat): nat {
    if n == 0 then 1 else 256 * Pow256(n - 1)
  }

  /** The `n` low-order bytes of a number, lowest first. */
  function Low(v: nat, n: nat): (b: Bytes)
    ensures |b| == n
  {
    if n == 0 then [] else [v % 256] + Low(v / 256, n - 1)
  }

  function Number(b: Bytes): (v: nat)
    ensures v < Pow256(|b|)
  {
    if b == [] then 0 else b[0] + 256 * Number(b[1..])
  }

  lemma {:induction false} NumberOfLow(v: nat, n: nat)
    requires v < Pow256(n)
    ensures Number(Low(v, n)) == v
  {
    if n > 0 {
      NumberOfLow(v / 256, n - 1);
      assert Low(v, n)[1..] == Low(v / 256, n - 1);
    }
  }

  lemma {:induction false} LowOfNumber(b: Bytes)
    ensures Low(Number(b), |b|) == b
  {
    if b != [] {
      LowOfNumber(b[1..]);
      assert Number(b) % 256 == b[0] && Number(b) / 256 == Number(b[1..]);
      assert b == [b[0]] + b[1..];
    }
  }

  // ---- Fixed widths ----

  const U16_MAX: int := 0xFFFF

  type U16 = n: int | 0 <= n <= U16_MAX

  lemma Widths()
    ensures Pow256(2) == U16_MAX + 1 && Pow256(8) == U64_MAX + 1
  {
    assert Pow256(4) == 256 * (256 * (256 * 256));
    assert Pow256(6) == 256 * (256 * Pow256(4));
  }

  function U16Bytes(v: U16): Bytes {
    Low(v, 2)
  }

  function U64Bytes(v: U64): Bytes {
    Low(v, 8)
  }

  /** Reading from the front: the value and what is left. */
  function TakeU16(b: Bytes): (r: Option<(U16, Bytes)>)
    ensures r.Some? <==> |b| >= 2
    ensures r.Some? ==> b == U16Bytes(r.value.0) + r.value.1
  {
    if |b| < 2 then None
    else
      Widths();
      LowOfNumber(b[..2]);
      assert b == b[..2] + b[2..];
      Some((Number(b[..2]), b[2..]))
  }

  function TakeU64(b: Bytes): (r: Option<(U64, Bytes)>)
    ensures r.Some? <==> |b| >= 8
    ensures r.Some? ==> b == U64Bytes(r.value.0) + r.value.1
  {
    if |b| < 8 then None
    else
      Widths();
      LowOfNumber(b[..8]);
      assert b == b[..8] + b[8..];
      Some((Number(b[..8]), b[8..]))
  }

  function TakeByte(b: Bytes): (r: Option<(Byte, Bytes)>)
    ensures r.Some? <==> |b| >= 1
    ensures r.Some? ==> b == [r.value.0] + r.value.1
  {
    if |b| < 1 then None else Some((b[0], b[1..]))
  }

  function TakeBytes(b: Bytes, n: nat): (r: Option<(Bytes, Bytes)>)
    ensures r.Some? <==> |b| >= n
    ensures r.Some? ==> b == r.value.0 + r.value.1 && |r.value.0| == n
  {
    if |b| < n then None else Some((b[..n], b[n..]))
  }

  /** Reading back what was written, whatever follows. */
  lemma TakesU16(v: U16, rest: Bytes)
    ensures TakeU16(U16Bytes(v) + rest) == Some((v, rest))
  {
    var b := U16Bytes(v) + rest;
    assert b[..2] == U16Bytes(v) && b[2..] == rest;
    Widths();
    NumberOfLow(v, 2);
  }

  lemma TakesU64(v: U64, rest: Bytes)
    ensures TakeU64(U64Bytes(v) + rest) == Some((v, rest))
  {
    var b := U64Bytes(v) + rest;
    assert b[..8] == U64Bytes(v) && b[8..] == rest;
    Widths();
    NumberOfLow(v, 8);
  }

  lemma TakesByte(v: Byte, rest: Bytes)
    ensures TakeByte([v] + rest) == Some((v, rest))
  {
    assert ([v] + rest)[1..] == rest;
  }

  lemma TakesBytes(v: Bytes, rest: Bytes)
    ensures TakeBytes(v + rest, |v|) == Some((v, rest))
  {
    assert (v + rest)[..|v|] == v && (v + rest)[|v|..] == rest;
  }

  // ---- Addresses ----

  const ADDRESS_BYTES := 20

  type Address = b: Bytes | |b| == ADDRESS_BYTES witness seq(20, i => 0)

  function HexDigit(n: int): Byte
    requires 0 <= n < 16
  {
    if n < 10 then 48 + n else 87 + n
  }

  /** Digits in either case. */
  function DigitValue(c: Byte): Option<int> {
    if 48 <= c <= 57 then Some(c - 48)
    else if 97 <= c <= 102 then Some(c - 87)
    else if 65 <= c <= 70 then Some(c - 55)
    else None
  }

  function HexOf(b: Bytes): (t: Bytes)
    ensures |t| == 2 * |b|
  {
    if b == [] then [] else [HexDigit(b[0] / 16), HexDigit(b[0] % 16)] + HexOf(b[1..])
  }

  function ParseHex(t: Bytes): (r: Option<Bytes>)
    ensures r.Some? ==> 2 * |r.value| == |t|
  {
    if t == [] then Some([])
    else if |t| == 1 || DigitValue(t[0]).None? || DigitValue(t[1]).None? then None
    else
      match ParseHex(t[2..])
      case None => None
      case Some(rest) => Some([16 * DigitValue(t[0]).value + DigitValue(t[1]).value] + rest)
  }

  const HEX_PREFIX: Bytes := [48, 120]

  /** The canonical spelling: prefixed, lower case. */
  function AddressText(a: Address): Bytes {
    HEX_PREFIX + HexOf(a)
  }

  /** Reads forty digits, with or without the prefix. */
  function ParseAddress(t: Bytes): Option<Address> {
    var digits := if HEX_PREFIX <= t then t[2..] else t;
    if |digits| != 2 * ADDRESS_BYTES then None
    else match ParseHex(digits)
         case None => None
         case Some(b) => Some(b)
  }

  lemma {:induction false} ParsesHex(b: Bytes)
    ensures ParseHex(HexOf(b)) == Some(b)
  {
    if b != [] {
      ParsesHex(b[1..]);
      assert HexOf(b)[2..] == HexOf(b[1..]);
      assert b == [b[0]] + b[1..];
    }
  }

  /** Digits A to F in lower case. */
  function Lowered(t: Bytes): Bytes {
    seq(|t|, i requires 0 <= i < |t| => if 65 <= t[i] <= 70 then t[i] + 32 else t[i])
  }

  /** Text reads as the bytes it spells, in either case, and as nothing else. */
  lemma {:induction false} ParseHexExactly(t: Bytes, b: Bytes)
    ensures ParseHex(t) == Some(b) <==> Lowered(t) == HexOf(b)
    decreases |t|
  {
    if |t| >= 2 && b != [] {
      ParseHexExactly(t[2..], b[1..]);
      assert Lowered(t) == Lowered(t[..2]) + Lowered(t[2..]);
      assert HexOf(b)[2..] == HexOf(b[1..]) && Lowered(t)[2..] == Lowered(t[2..]);
      assert b == [b[0]] + b[1..];
      TwoDigits(t[0], t[1], b[0]);
    }
  }

  lemma TwoDigits(h: Byte, l: Byte, b: Byte)
    ensures (DigitValue(h).Some? && DigitValue(l).Some? && 16 * DigitValue(h).value + DigitValue(l).value == b)
       <==> Lowered([h, l]) == [HexDigit(b / 16), HexDigit(b % 16)]
  {
    OneDigit(h, b / 16);
    OneDigit(l, b % 16);
    assert Lowered([h, l])[0] == Lowered([h])[0] && Lowered([h, l])[1] == Lowered([l])[0];
  }

  lemma OneDigit(c: Byte, n: int)
    requires 0 <= n < 16
    ensures DigitValue(c) == Some(n) <==> Lowered([c])[0] == HexDigit(n)
    ensures DigitValue(c).Some? ==> 0 <= DigitValue(c).value < 16
  {
  }

  /** An address is spelled by forty digits in either case, with or without the prefix. */
  lemma ParseAddressExactly(t: Bytes, a: Address)
    ensures ParseAddress(t) == Some(a) <==> Lowered(t) == HexOf(a) || (HEX_PREFIX <= t && Lowered(t[2..]) == HexOf(a))
  {
    ParseHexExactly(t, a);
    if HEX_PREFIX <= t {
      ParseHexExactly(t[2..], a);
      PrefixIsNoDigits(t, a);
    }
  }

  lemma PrefixIsNoDigits(t: Bytes, a: Address)
    requires HEX_PREFIX <= t
    ensures Lowered(t) != HexOf(a)
  {
    assert Lowered(t)[1] == 120;
    assert HexOf(a)[1] == HexDigit(a[0] % 16);
  }

  lemma ParsesAddress(a: Address)
    ensures ParseAddress(AddressText(a)) == Some(a)
  {
    ParsesHex(a);
    assert AddressText(a)[2..] == HexOf(a);
  }
}
