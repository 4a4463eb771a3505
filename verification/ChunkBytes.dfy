/** Chunk files byte by byte: which bytes mean what, and which files are read and written. */
module ChunkBytes {
  import opened ArtifactKinds
  import opened ChunkCodec
  import opened ChunkLayout
  import opened Common
  import opened Wire

  // ---- Where everything is ----

  predicate DatasetByte(b: Byte, d: Dataset) {
    match d
    case WalletScan => b == 0
    case Commitments => b == 1
    case MerkleCheckpoint => b == 2
    case PublicTxid => b == 3
  }

  predicate KindByte(b: Byte, k: RangeKind) {
    match k
    case Block => b == 0
    case TxidIndex => b == 1
    case TreePosition => b == 2
    case PoiEventIndex => b == 3
  }

  predicate SectionAt(b: Bytes, at: nat, s: Section)
    requires at + 18 <= |b|
  {
    Number(b[at..at + 2]) == s.id && Number(b[at + 2..at + 10]) == s.offset && Number(b[at + 10..at + 18]) == s.length
  }

  predicate TableAt(b: Bytes, at: nat, sections: seq<Section>) {
    at + 18 * |sections| <= |b| && forall i :: 0 <= i < |sections| ==> SectionAt(b, at + 18 * i, sections[i])
  }

  /** Magic, version, dataset, EVM chain, chain id and the contract text with its length. */
  predicate StartsFile(b: Bytes, h: Header, text: Bytes) {
    && |b| >= 22 + |text|
    && b[..8] == [82, 71, 73, 68, 88, 67, 72, 0]
    && Number(b[8..10]) == h.formatVersion && DatasetByte(b[10], h.dataset) && b[11] == 0
    && Number(b[12..20]) == h.chainId && Number(b[20..22]) == |text| && b[22..22 + |text|] == text
  }

  /** Range, row count, payload length, number of sections, the sections and the payload. */
  predicate EndsFile(b: Bytes, h: Header, payload: Bytes) {
    var k := |h.sections|;
    && |b| == 35 + 18 * k + |payload|
    && KindByte(b[0], h.kind) && Number(b[1..9]) == h.start && Number(b[9..17]) == h.end
    && Number(b[17..25]) == h.rowCount && Number(b[25..33]) == h.uncompressedLength && Number(b[33..35]) == k
    && TableAt(b, 35, h.sections) && b[35 + 18 * k..] == payload
  }

  predicate IsFile(b: Bytes, h: Header, text: Bytes, payload: Bytes) {
    StartsFile(b, h, text) && EndsFile(b[22 + |text|..], h, payload)
  }

  lemma Cuts(b: Bytes, at: nat, part: Bytes, rest: Bytes)
    requires at <= |b| && b[at..] == part + rest
    ensures at + |part| <= |b| && b[at..at + |part|] == part && b[at + |part|..] == rest
  {
    assert b[at..at + |part|] == b[at..][..|part|];
    assert b[at + |part|..] == b[at..][|part|..];
  }

  lemma NumberOfU16(v: U16)
    ensures |U16Bytes(v)| == 2 && Number(U16Bytes(v)) == v
  {
    Widths();
    NumberOfLow(v, 2);
  }

  lemma NumberOfU64(v: U64)
    ensures |U64Bytes(v)| == 8 && Number(U64Bytes(v)) == v
  {
    Widths();
    NumberOfLow(v, 8);
  }

  lemma StartIsLaid(h: Header, text: Bytes, rest: Bytes)
    requires |text| <= U16_MAX
    ensures var b := PrologueBytes(h.formatVersion, h.dataset, ScopeBytes(h.chainId, text, rest));
            StartsFile(b, h, text) && b[22 + |text|..] == rest
  {
    var b6 := text + rest;
    var b5 := U16Bytes(|text|) + b6;
    var b4 := U64Bytes(h.chainId) + b5;
    var b3 := [EVM_CHAIN] + b4;
    var b2 := [DatasetId(h.dataset)] + b3;
    var b1 := U16Bytes(h.formatVersion) + b2;
    var b := MAGIC + b1;
    NumberOfU16(h.formatVersion);
    NumberOfU16(|text|);
    NumberOfU64(h.chainId);
    Cuts(b, 0, MAGIC, b1);
    Cuts(b, 8, U16Bytes(h.formatVersion), b2);
    Cuts(b, 10, [DatasetId(h.dataset)], b3);
    Cuts(b, 11, [EVM_CHAIN], b4);
    Cuts(b, 12, U64Bytes(h.chainId), b5);
    Cuts(b, 20, U16Bytes(|text|), b6);
    Cuts(b, 22, text, rest);
    assert b[10] == b[10..11][0] && b[11] == b[11..12][0];
  }

  lemma SectionIsLaid(s: Section, rest: Bytes)
    ensures var b := SectionBytes(s, rest); |b| == 18 + |rest| && SectionAt(b, 0, s) && b[18..] == rest
  {
    var b2 := U64Bytes(s.length) + rest;
    var b1 := U64Bytes(s.offset) + b2;
    var b := U16Bytes(s.id) + b1;
    NumberOfU16(s.id);
    NumberOfU64(s.offset);
    NumberOfU64(s.length);
    Cuts(b, 0, U16Bytes(s.id), b1);
    Cuts(b, 2, U64Bytes(s.offset), b2);
    Cuts(b, 10, U64Bytes(s.length), rest);
  }

  lemma SectionShifts(b: Bytes, from: nat, at: nat, s: Section)
    requires from <= |b| && at + 18 <= |b| - from && SectionAt(b[from..], at, s)
    ensures SectionAt(b, from + at, s)
  {
    var c := b[from..];
    assert c[at..at + 2] == b[from + at..from + at + 2];
    assert c[at + 2..at + 10] == b[from + at + 2..from + at + 10];
    assert c[at + 10..at + 18] == b[from + at + 10..from + at + 18];
  }

  lemma TableShifts(b: Bytes, from: nat, sections: seq<Section>)
    requires from <= |b| && TableAt(b[from..], 0, sections)
    ensures TableAt(b, from, sections)
  {
    forall i | 0 <= i < |sections| ensures SectionAt(b, from + 18 * i, sections[i]) {
      SectionShifts(b, from, 18 * i, sections[i]);
    }
  }

  lemma TableGrows(b: Bytes, sections: seq<Section>)
    requires sections != [] && |b| >= 18 && SectionAt(b, 0, sections[0]) && TableAt(b, 18, sections[1..])
    ensures TableAt(b, 0, sections)
  {
    forall i | 0 <= i < |sections| ensures SectionAt(b, 18 * i, sections[i]) {
      if i > 0 { assert SectionAt(b, 18 + 18 * (i - 1), sections[1..][i - 1]); }
    }
  }

  lemma {:induction false} TableIsLaid(sections: seq<Section>, rest: Bytes)
    ensures var b := TableBytes(sections, rest);
            |b| == 18 * |sections| + |rest| && TableAt(b, 0, sections) && b[18 * |sections|..] == rest
    decreases |sections|
  {
    if sections != [] {
      var tail := TableBytes(sections[1..], rest);
      var b := SectionBytes(sections[0], tail);
      SectionIsLaid(sections[0], tail);
      TableIsLaid(sections[1..], rest);
      TableShifts(b, 18, sections[1..]);
      TableGrows(b, sections);
      assert b[18 * |sections|..] == b[18..][18 * |sections[1..]|..];
    }
  }

  lemma EndIsLaid(h: Header, payload: Bytes)
    requires |h.sections| <= U16_MAX
    ensures EndsFile(RangeBytes(h.kind, h.start, h.end, TailBytes(h.rowCount, h.uncompressedLength, h.sections, payload)), h, payload)
  {
    var table := TableBytes(h.sections, payload);
    var b5 := U16Bytes(|h.sections|) + table;
    var b4 := U64Bytes(h.uncompressedLength) + b5;
    var b3 := U64Bytes(h.rowCount) + b4;
    var b2 := U64Bytes(h.end) + b3;
    var b1 := U64Bytes(h.start) + b2;
    var b := [RangeKindId(h.kind)] + b1;
    NumberOfU64(h.start);
    NumberOfU64(h.end);
    NumberOfU64(h.rowCount);
    NumberOfU64(h.uncompressedLength);
    NumberOfU16(|h.sections|);
    Cuts(b, 0, [RangeKindId(h.kind)], b1);
    Cuts(b, 1, U64Bytes(h.start), b2);
    Cuts(b, 9, U64Bytes(h.end), b3);
    Cuts(b, 17, U64Bytes(h.rowCount), b4);
    Cuts(b, 25, U64Bytes(h.uncompressedLength), b5);
    Cuts(b, 33, U16Bytes(|h.sections|), table);
    TableIsLaid(h.sections, payload);
    TableShifts(b, 35, h.sections);
    assert b[35 + 18 * |h.sections|..] == table[18 * |h.sections|..];
  }

  lemma LaidIsFile(h: Header, text: Bytes, payload: Bytes)
    requires |text| <= U16_MAX && |h.sections| <= U16_MAX
    ensures IsFile(Layout(h, text, payload), h, text, payload)
  {
    EndIsLaid(h, payload);
    StartIsLaid(h, text, RangeBytes(h.kind, h.start, h.end, TailBytes(h.rowCount, h.uncompressedLength, h.sections, payload)));
  }

  // ---- There is one such file ----

  lemma SameNumber(a: Bytes, b: Bytes)
    requires |a| == |b| && Number(a) == Number(b)
    ensures a == b
  {
    LowOfNumber(a);
    LowOfNumber(b);
  }

  lemma OneStart(a: Bytes, b: Bytes, h: Header, text: Bytes)
    requires StartsFile(a, h, text) && StartsFile(b, h, text)
    ensures a[..22 + |text|] == b[..22 + |text|]
  {
    SameNumber(a[8..10], b[8..10]);
    SameNumber(a[12..20], b[12..20]);
    SameNumber(a[20..22], b[20..22]);
    var n := 22 + |text|;
    assert a[..n] == a[..8] + a[8..10] + [a[10], a[11]] + a[12..20] + a[20..22] + a[22..n];
    assert b[..n] == b[..8] + b[8..10] + [b[10], b[11]] + b[12..20] + b[20..22] + b[22..n];
  }

  lemma OneSection(a: Bytes, b: Bytes, at: nat, s: Section)
    requires at + 18 <= |a| && at + 18 <= |b| && SectionAt(a, at, s) && SectionAt(b, at, s)
    ensures a[at..at + 18] == b[at..at + 18]
  {
    SameNumber(a[at..at + 2], b[at..at + 2]);
    SameNumber(a[at + 2..at + 10], b[at + 2..at + 10]);
    SameNumber(a[at + 10..at + 18], b[at + 10..at + 18]);
    assert a[at..at + 18] == a[at..at + 2] + a[at + 2..at + 10] + a[at + 10..at + 18];
    assert b[at..at + 18] == b[at..at + 2] + b[at + 2..at + 10] + b[at + 10..at + 18];
  }

  lemma {:induction false} OneTable(a: Bytes, b: Bytes, at: nat, sections: seq<Section>)
    requires TableAt(a, at, sections) && TableAt(b, at, sections)
    ensures a[at..at + 18 * |sections|] == b[at..at + 18 * |sections|]
    decreases |sections|
  {
    if sections != [] {
      var n := |sections| - 1;
      var end := at + 18 * n;
      assert TableAt(a, at, sections[..n]) && TableAt(b, at, sections[..n]);
      OneTable(a, b, at, sections[..n]);
      OneSection(a, b, end, sections[n]);
      assert a[at..end + 18] == a[at..end] + a[end..end + 18];
      assert b[at..end + 18] == b[at..end] + b[end..end + 18];
    }
  }

  /** Bytes that agree up to one place and from there to the next. */
  lemma AgreesTo(a: Bytes, b: Bytes, i: nat, j: nat)
    requires i <= j <= |a| && j <= |b| && a[..i] == b[..i] && a[i..j] == b[i..j]
    ensures a[..j] == b[..j]
  {
    assert a[..j] == a[..i] + a[i..j] && b[..j] == b[..i] + b[i..j];
  }

  lemma NumberAgreesTo(a: Bytes, b: Bytes, i: nat, j: nat)
    requires i <= j <= |a| && j <= |b| && a[..i] == b[..i] && Number(a[i..j]) == Number(b[i..j])
    ensures a[..j] == b[..j]
  {
    SameNumber(a[i..j], b[i..j]);
    AgreesTo(a, b, i, j);
  }

  lemma OneEnd(a: Bytes, b: Bytes, h: Header, payload: Bytes)
    requires EndsFile(a, h, payload) && EndsFile(b, h, payload)
    ensures a == b
  {
    assert a[..1] == [a[0]] && b[..1] == [b[0]];
    NumberAgreesTo(a, b, 1, 9);
    NumberAgreesTo(a, b, 9, 17);
    NumberAgreesTo(a, b, 17, 25);
    NumberAgreesTo(a, b, 25, 33);
    NumberAgreesTo(a, b, 33, 35);
    var n := 35 + 18 * |h.sections|;
    OneTable(a, b, 35, h.sections);
    AgreesTo(a, b, 35, n);
    assert a == a[..n] + a[n..] && b == b[..n] + b[n..];
  }

  lemma OneFile(a: Bytes, b: Bytes, h: Header, text: Bytes, payload: Bytes)
    requires IsFile(a, h, text, payload) && IsFile(b, h, text, payload)
    ensures a == b
  {
    var n := 22 + |text|;
    OneStart(a, b, h, text);
    OneEnd(a[n..], b[n..], h, payload);
    assert a == a[..n] + a[n..] && b == b[..n] + b[n..];
  }

  /** The layout is exactly the file whose bytes say this. */
  lemma LayoutExactly(b: Bytes, h: Header, text: Bytes, payload: Bytes)
    requires |text| <= U16_MAX && |h.sections| <= U16_MAX
    ensures b == Layout(h, text, payload) <==> IsFile(b, h, text, payload)
  {
    LaidIsFile(h, text, payload);
    if IsFile(b, h, text, payload) { OneFile(b, Layout(h, text, payload), h, text, payload); }
  }

  // ---- What is read and written ----

  predicate InSection(s: Section, x: int) {
    s.offset <= x < s.offset + s.length
  }

  /** Lengths agree, ids differ, sections end within the payload and no byte is in two. */
  ghost predicate HoldsTogether(h: Header, payload: Bytes) {
    && h.uncompressedLength == |payload|
    && (forall i, j :: 0 <= i < j < |h.sections| ==> h.sections[i].id != h.sections[j].id)
    && (forall i :: 0 <= i < |h.sections| ==> h.sections[i].offset + h.sections[i].length <= |payload|)
    && forall i, j, x :: 0 <= i < j < |h.sections| && InSection(h.sections[i], x) ==> !InSection(h.sections[j], x)
  }

  lemma FitsExactly(h: Header, payload: Bytes)
    ensures Fits(h, payload) <==> HoldsTogether(h, payload)
  {
    var ss := h.sections;
    if HoldsTogether(h, payload) {
      forall i, j | 0 <= i < j < |ss| && ss[i].length > 0 && ss[j].length > 0 ensures Apart(ss[i], ss[j]) {
        var x := if ss[i].offset < ss[j].offset then ss[j].offset else ss[i].offset;
        assert InSection(ss[i], x) ==> !InSection(ss[j], x);
      }
    }
    if Fits(h, payload) {
      forall i, j, x | 0 <= i < j < |ss| && InSection(ss[i], x) ensures !InSection(ss[j], x) {
        assert ss[j].length > 0 ==> Apart(ss[i], ss[j]);
      }
    }
  }

  /** The largest file of a dataset: 64, 8, 4 and 32 MiB. */
  predicate WithinLimit(size: nat, d: Dataset) {
    match d
    case WalletScan => size <= 67108864
    case Commitments => size <= 8388608
    case MerkleCheckpoint => size <= 4194304
    case PublicTxid => size <= 33554432
  }

  /** The file of an envelope, its contract spelled `text`. */
  predicate FileOf(b: Bytes, e: Envelope, text: Bytes) {
    && |text| <= U16_MAX && |e.header.sections| <= U16_MAX
    && ParseAddress(text) == Some(e.header.contract) && IsFile(b, e.header, text, e.payload)
  }

  lemma SpellsExactly(b: Bytes, e: Envelope, text: Bytes)
    ensures Spells(b, e, text) <==> FileOf(b, e, text)
  {
    if |text| <= U16_MAX && |e.header.sections| <= U16_MAX { LayoutExactly(b, e.header, text, e.payload); }
  }

  lemma ReadableExactly(e: Envelope, size: nat)
    ensures Readable(e, size) <==>
      e.header.formatVersion == 2 && WithinLimit(size, e.header.dataset) && HoldsTogether(e.header, e.payload)
  {
    FitsExactly(e.header, e.payload);
  }

  /** Files of version 2 within the limit whose header holds together are read, as what they
      say, with the contract in any spelling; nothing else is. */
  lemma DecodesExactly(b: Bytes, e: Envelope)
    ensures Decode(b) == Some(e) <==>
      && e.header.formatVersion == 2 && WithinLimit(|b|, e.header.dataset) && HoldsTogether(e.header, e.payload)
      && exists text :: FileOf(b, e, text)
  {
    DecodeIsExact(b, e);
    ReadableExactly(e, |b|);
    if exists text :: Spells(b, e, text) {
      var text :| Spells(b, e, text);
      SpellsExactly(b, e, text);
    }
    if exists text :: FileOf(b, e, text) {
      var text :| FileOf(b, e, text);
      SpellsExactly(b, e, text);
    }
  }

  /** Headers that hold together, with at most 65535 sections, are written as their file. */
  lemma EncodesExactly(e: Envelope, b: Bytes)
    ensures Encode(e) == Some(b) <==>
      && HoldsTogether(e.header, e.payload) && |e.header.sections| <= U16_MAX
      && IsFile(b, e.header, HEX_PREFIX + HexOf(e.header.contract), e.payload)
  {
    FitsExactly(e.header, e.payload);
    if |e.header.sections| <= U16_MAX {
      LayoutExactly(b, e.header, AddressText(e.header.contract), e.payload);
    }
  }
}
