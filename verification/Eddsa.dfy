/** Spending keys and signatures: pruned secrets as in section 5.1.5 of RFC 8032, on the
    Baby Jubjub subgroup. */
module Eddsa {
  import opened BabyJub
  import opened Common
  import opened CyclicPowers
  import opened Modular
  import opened Wire

  type Digest = b: Bytes | |b| == 64 witness seq(64, i => 0)

  /** The hash functions, as the signer calls them. */
  const BLAKE512: Bytes -> Digest

  const POSEIDON: seq<nat> -> nat

  // ---- Pruning ----

  /** The lowest byte loses its three low bits. */
  function LowByte(b: Byte): Byte {
    b - b % 8
  }

  /** The highest byte loses its top bit and gains the next one. */
  function HighByte(b: Byte): Byte {
    64 + b % 64
  }

  /** On bits, the edits are the masks of the RFC. */
  lemma BytesAreMasked(v: bv8)
    ensures LowByte(v as int) == (v & 0xF8) as int
    ensures HighByte(v as int) == ((v & 0x7F) | 0x40) as int
  {
    LowBitsClear(v);
    TopBitsSet(v);
  }

  function Pruned(d: Digest): Digest {
    d[0 := LowByte(d[0])][31 := HighByte(d[31])]
  }

  function Scalar(d: Digest): nat {
    Number(d[..32])
  }

  /** Editing the hash in place. */
  method Prune(d: Digest) returns (r: Digest)
    ensures r == Pruned(d)
  {
    var buff := new Byte[64](i requires 0 <= i < 64 => d[i]);
    buff[0] := LowByte(buff[0]);
    buff[31] := HighByte(buff[31]);
    assert buff[..] == Pruned(d);
    r := buff[..];
  }

  lemma LowBitsClear(v: bv8)
    ensures (v & 0xF8) as int == v as int - v as int % 8
  {
    LowBitsAreRemainder(v);
    RemainderTakenOff(v);
  }

  lemma LowBitsAreRemainder(v: bv8)
    ensures v & 0xF8 == v - v % 8 && (v % 8) as int == v as int % 8
  {
  }

  lemma RemainderTakenOff(v: bv8)
    ensures (v - v % 8) as int == v as int - (v % 8) as int
  {
  }

  lemma TopBitsSet(v: bv8)
    ensures ((v & 0x7F) | 0x40) as int == 64 + v as int % 64
  {
    TopBitsAreSum(v);
    SumIsTaken(v % 64);
  }

  lemma TopBitsAreSum(v: bv8)
    ensures (v & 0x7F) | 0x40 == v % 64 + 0x40 && v % 64 < 64 && (v % 64) as int == v as int % 64
  {
  }

  lemma SumIsTaken(v: bv8)
    requires v < 64
    ensures (v + 0x40) as int == v as int + 64
  {
  }

  /** The number a pruned hash stands for: a multiple of eight whose highest byte is from 64
      up to 127. */
  function SecretNumber(d: Digest): nat {
    Number([d[0] - d[0] % 8] + d[1..31] + [64 + d[31] % 64])
  }

  lemma PrunedIsSecret(d: Digest)
    ensures Scalar(Pruned(d)) == SecretNumber(d) && Pruned(d)[32..] == d[32..]
  {
    assert Pruned(d)[..32] == [d[0] - d[0] % 8] + d[1..31] + [64 + d[31] % 64];
  }

  lemma {:induction false} NumberSnoc(b: Bytes, top: Byte)
    ensures Number(b + [top]) == Number(b) + Pow256(|b|) * top
    decreases |b|
  {
    if b != [] {
      NumberSnoc(b[1..], top);
      assert (b + [top])[1..] == b[1..] + [top];
      assert 256 * (Number(b[1..]) + Pow256(|b| - 1) * top) == 256 * Number(b[1..]) + 256 * (Pow256(|b| - 1) * top);
      assert 256 * (Pow256(|b| - 1) * top) == Pow256(|b|) * top;
    } else {
      assert (b + [top])[1..] == [];
    }
  }

  lemma {:induction false} Pow256IsPow2(n: nat, k: nat)
    requires k == 8 * n
    ensures Pow256(n) == Pow2(k)
    decreases n
  {
    if n > 0 {
      Pow256IsPow2(n - 1, k - 8);
      EightDoublings(k - 8);
    }
  }

  lemma EightDoublings(k: nat)
    ensures Pow2(k + 8) == 256 * Pow2(k)
  {
    assert Pow2(k + 2) == 4 * Pow2(k);
    assert Pow2(k + 4) == 4 * Pow2(k + 2);
    assert Pow2(k + 6) == 4 * Pow2(k + 4);
    assert Pow2(k + 8) == 4 * Pow2(k + 6);
  }

  lemma SecretIsMultiple(d: Digest)
    ensures SecretNumber(d) % 8 == 0
  {
    var b := [d[0] - d[0] % 8] + d[1..31] + [64 + d[31] % 64];
    MultipleOfEight(b[0], Number(b[1..]));
  }

  lemma MultipleOfEight(low: nat, rest: nat)
    requires low % 8 == 0
    ensures (low + 256 * rest) % 8 == 0
  {
  }

  lemma SecretBounds(d: Digest, last: nat, bits: nat)
    requires last == 31 && bits == 8 * last
    ensures 64 * Pow2(bits) <= SecretNumber(d) < 128 * Pow2(bits)
  {
    var low, top := [d[0] - d[0] % 8] + d[1..31], 64 + d[31] % 64;
    NumberSnoc(low, top);
    Pow256IsPow2(last, bits);
    TopByteBounds(Number(low), top, Pow2(bits));
  }

  /** Every pruned secret is a multiple of eight from 2^254 up to, not including, 2^255. */
  lemma PrunedScalar(d: Digest, bits: nat)
    requires bits == 248
    ensures Scalar(Pruned(d)) % 8 == 0
    ensures Pow2(bits + 6) <= Scalar(Pruned(d)) < Pow2(bits + 7)
  {
    PrunedIsSecret(d);
    SecretIsMultiple(d);
    SecretBounds(d, 31, bits);
    assert Pow2(bits + 2) == 4 * Pow2(bits);
    assert Pow2(bits + 4) == 4 * Pow2(bits + 2);
    assert Pow2(bits + 6) == 4 * Pow2(bits + 4);
  }

  lemma TopByteBounds(low: nat, top: nat, unit: nat)
    requires low < unit && 64 <= top < 128
    ensures 64 * unit <= low + unit * top < 128 * unit
  {
    assert unit * top >= unit * 64;
    assert unit * top <= unit * 127;
  }

  // ---- Keys and signatures ----

  /** The group a signer works in: addition, identity, base point and coordinates. */
  datatype Curve<!T> = Curve(add: (T, T) -> T, identity: T, base8: T, x: T -> nat, y: T -> nat, suborder: Modulus) {
    function Multiple(p: T, n: nat): T {
      Times(add, identity, p, n)
    }
  }

  datatype Signature<T> = Signature(r8: T, s: nat)

  function Secret(key: Bytes): Digest {
    Pruned(BLAKE512(key))
  }

  function PublicPoint<T>(c: Curve<T>, key: Bytes): T {
    c.Multiple(c.base8, SecretNumber(BLAKE512(key)) / 8)
  }

  /** What is hashed for the nonce: the second half of the hashed key, then the message,
      lowest byte first. */
  predicate IsNonceInput(key: Bytes, msg: nat, b: Bytes) {
    |b| == 64 && b[..32] == BLAKE512(key)[32..] && Number(b[32..]) == msg
  }

  /** The nonce point comes from hashing this input. */
  predicate NonceFrom<T(==)>(c: Curve<T>, key: Bytes, msg: nat, r8: T, b: Bytes) {
    IsNonceInput(key, msg, b) && r8 == c.Multiple(c.base8, Number(BLAKE512(b)) % c.suborder)
  }

  /** A key has exactly one nonce input for each message. */
  lemma NonceInputsMeetExactly(key: Bytes, msg: nat, b: Bytes, msg': nat, b': Bytes)
    requires IsNonceInput(key, msg, b) && IsNonceInput(key, msg', b')
    ensures b == b' <==> msg == msg'
  {
    LowOfNumber(b[32..]);
    LowOfNumber(b'[32..]);
    assert b == b[..32] + b[32..] && b' == b'[..32] + b'[32..];
  }

  lemma MessageMakesInput(key: Bytes, msg: nat)
    requires msg < Pow256(32)
    ensures IsNonceInput(key, msg, Secret(key)[32..] + Low(msg, 32))
  {
    PrunedIsSecret(BLAKE512(key));
    NumberOfLow(msg, 32);
    var b := Secret(key)[32..] + Low(msg, 32);
    assert b[..32] == Secret(key)[32..] && b[32..] == Low(msg, 32);
  }

  /** Addition is associative on multiples of the base point, whose order divides the
      suborder. */
  ghost predicate GroupLaws<T(!new)>(c: Curve<T>) {
    GroupOnMultiples(c.add, c.identity, c.base8) && c.Multiple(c.base8, c.suborder) == c.identity
  }

  /** The verification equation of the signature scheme, S*B8 = R8 + (8*hm)*A. */
  predicate Verifies<T(==)>(c: Curve<T>, sig: Signature<T>, a: T, msg: nat) {
    c.Multiple(c.base8, sig.s)
      == c.add(sig.r8, c.Multiple(a, 8 * POSEIDON([c.x(sig.r8), c.y(sig.r8), c.x(a), c.y(a), msg])))
  }

  /** A response computed from the secret, its public point and a nonce verifies. */
  lemma ResponseVerifies<T(!new)>(c: Curve<T>, s: nat, r: nat, r8: T, a: T, msg: nat, hm: nat)
    requires GroupLaws(c) && s % 8 == 0 && hm == POSEIDON([c.x(r8), c.y(r8), c.x(a), c.y(a), msg])
    requires a == c.Multiple(c.base8, s / 8) && r8 == c.Multiple(c.base8, r)
    ensures Verifies(c, Signature(r8, Response(r, hm * s, c.suborder)), a, msg)
  {
    SigningEquation(c.add, c.identity, c.base8, c.suborder, s / 8, r, hm);
    assert 8 * (s / 8) == s;
  }

  method PublicSpendingKey<T(!new)>(c: Curve<T>, key: Bytes) returns (a: T)
    ensures GroupLaws(c) ==> a == PublicPoint(c, key)
  {
    var secret := Prune(BLAKE512(key));
    PrunedIsSecret(BLAKE512(key));
    a := DoubleAndAdd(c.add, c.identity, c.base8, Scalar(secret) / 8);
  }

  method Respond(r: nat, hm: nat, s: nat, order: Modulus) returns (response: nat)
    ensures response == Response(r, hm * s, order) && response < order
  {
    var term := (hm * s) % order;
    response := (r + term) % order;
  }

  /** Every signature is below the suborder and verifies under the signer's public key; its
      nonce comes from the key and all bytes of the message. */
  method Sign<T(==, !new)>(c: Curve<T>, key: Bytes, msg: nat) returns (sig: Signature<T>)
    ensures sig.s < c.suborder
    ensures GroupLaws(c) ==> Verifies(c, sig, PublicPoint(c, key), msg)
    ensures GroupLaws(c) && msg < Pow256(32) ==> exists b :: NonceFrom(c, key, msg, sig.r8, b)
  {
    var secret := Prune(BLAKE512(key));
    var s := Scalar(secret);
    var a := DoubleAndAdd(c.add, c.identity, c.base8, s / 8);
    var r := Number(BLAKE512(secret[32..] + Low(msg, 32))) % c.suborder;
    var r8 := DoubleAndAdd(c.add, c.identity, c.base8, r);
    var hm := POSEIDON([c.x(r8), c.y(r8), c.x(a), c.y(a), msg]);
    var response := Respond(r, hm, s, c.suborder);
    sig := Signature(r8, response);
    SecretIsMultiple(BLAKE512(key));
    PrunedIsSecret(BLAKE512(key));
    if GroupLaws(c) {
      ResponseVerifies(c, s, r, r8, a, msg, hm);
      if msg < Pow256(32) {
        MessageMakesInput(key, msg);
        assert NonceFrom(c, key, msg, r8, secret[32..] + Low(msg, 32));
      }
    }
  }

  // ---- Edwards curves ----

  function Spending(e: Edwards, base8: Point, suborder: Modulus): Curve<Point> {
    Curve((p: Point, q: Point) => e.Add(p, q), IDENTITY, base8,
          (p: Point) => if p.x < 0 then 0 else p.x, (p: Point) => if p.y < 0 then 0 else p.y, suborder)
  }

  lemma {:induction false} MultiplesHold(e: Edwards, base8: Point, suborder: Modulus, n: nat)
    requires e.Holds(base8)
    ensures e.Holds(Spending(e, base8, suborder).Multiple(base8, n))
    decreases n
  {
    if n > 1 { MultiplesHold(e, base8, suborder, n - 1); }
  }

  /** Of the group laws an Edwards curve needs only associativity on multiples of its base
      point, the order of that point, and a field inverse that leaves one alone: the
      identity laws follow. */
  lemma EdwardsGroupLaws(e: Edwards, base8: Point, suborder: Modulus)
    requires e.Holds(base8) && e.inverse(1) == 1
    requires var c := Spending(e, base8, suborder);
             && (forall j: nat, k: nat :: AssociatesAt(c.add, c.identity, base8, j, k))
             && c.Multiple(base8, suborder) == c.identity
    ensures GroupLaws(Spending(e, base8, suborder))
  {
    var c := Spending(e, base8, suborder);
    AddIdentity(e, base8);
    forall j: nat ensures RightNeutral(c.add, c.identity, base8, j) {
      MultiplesHold(e, base8, suborder, j);
      AddIdentity(e, c.Multiple(base8, j));
    }
  }

  // ---- The wallet's curve ----

  const FIELD: Modulus := 21888242871839275222246405745257275088548364400416034343698204186575808495617

  const SUBORDER: Modulus := 0x060c89ce5c263405370a08b6d0302b0bab3eedb83920ee0a677297dc392126f1

  const BASE8: Point := Point(
    5299619240641551281634865583518297030282874472190772894086521144482721001553,
    16950150798460657717958625567821834550301663161624707787222815936182638968203)

  /** The inverse of the field library. */
  const INVERSE: int -> int

  const CURVE: Edwards := Edwards(FIELD, 168700, 168696, INVERSE)

  const BABYJUB: Curve<Point> := Spending(CURVE, BASE8, SUBORDER)

  /** The verification equation on points, with the five numbers that are hashed. */
  predicate SpendVerifies(sig: Signature<Point>, a: Point, msg: nat) {
    && sig.r8.x >= 0 && sig.r8.y >= 0 && a.x >= 0 && a.y >= 0
    && BABYJUB.Multiple(BASE8, sig.s)
         == CURVE.Add(sig.r8, BABYJUB.Multiple(a, 8 * POSEIDON([sig.r8.x, sig.r8.y, a.x, a.y, msg])))
  }

  lemma MultipleHolds(p: Point, n: nat)
    requires p == BABYJUB.Multiple(BASE8, n)
    ensures CURVE.Holds(p)
  {
    MultiplesHold(CURVE, BASE8, SUBORDER, n);
  }

  lemma VerifiesOnPoints(sig: Signature<Point>, a: Point, msg: nat)
    requires Verifies(BABYJUB, sig, a, msg) && CURVE.Holds(sig.r8) && CURVE.Holds(a)
    ensures SpendVerifies(sig, a, msg)
  {
  }

  /** Signing a spend with the wallet's key. */
  method SignSpendMessage(key: Bytes, msg: nat) returns (sig: Signature<Point>)
    ensures sig.s < SUBORDER
    ensures GroupLaws(BABYJUB) ==> Verifies(BABYJUB, sig, PublicPoint(BABYJUB, key), msg)
    ensures GroupLaws(BABYJUB) && msg < Pow256(32) ==>
      SpendVerifies(sig, PublicPoint(BABYJUB, key), msg) && exists b :: NonceFrom(BABYJUB, key, msg, sig.r8, b)
  {
    sig := Sign(BABYJUB, key, msg);
    if GroupLaws(BABYJUB) && msg < Pow256(32) {
      ghost var b :| NonceFrom(BABYJUB, key, msg, sig.r8, b);
      MultipleHolds(sig.r8, Number(BLAKE512(b)) % SUBORDER);
      MultipleHolds(PublicPoint(BABYJUB, key), SecretNumber(BLAKE512(key)) / 8);
      VerifiesOnPoints(sig, PublicPoint(BABYJUB, key), msg);
    }
  }
}
