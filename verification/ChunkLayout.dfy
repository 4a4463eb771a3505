/** Chunk files: a header in a fixed layout, then the payload. */
module ChunkLayout {
  import opened ArtifactKinds
  import opened Common
  import opened Wire

  datatype Section = Section(id: U16, offset: U64, length: U64)

  datatype Header = Header(
    formatVersion: U16, dataset: Dataset, chainId: U64, contract: Address,
    kind: RangeKind, start: U64, end: U64, rowCount: U64, uncompressedLength: U64,
    sections: seq<Section>)

  datatype Envelope = Envelope(header: Header, payload: Bytes)

  const MAGIC: Bytes := [82, 71, 73, 68, 88, 67, 72, 0]

  const FORMAT_VERSION: U16 := 2

  const MIB: nat := 1024 * 1024

  const MAX_DECODED: nat := 64 * MIB

  function DecodedLimit(d: Dataset): nat {
    match d
    case WalletScan => 64 * MIB
    case PublicTxid => 32 * MIB
    case Commitments => 8 * MIB
    case MerkleCheckpoint => 4 * MIB
  }

  function DatasetId(d: Dataset): Byte {
    match d
    case WalletScan => 0
    case Commitments => 1
    case MerkleCheckpoint => 2
    case PublicTxid => 3
  }

  function ParseDataset(b: Byte): (r: Option<Dataset>)
    ensures forall d :: r == Some(d) <==> b == DatasetId(d)
  {
    if b == 0 then Some(WalletScan)
    else if b == 1 then Some(Commitments)
    else if b == 2 then Some(MerkleCheckpoint)
    else if b == 3 then Some(PublicTxid)
    else None
  }

  function RangeKindId(k: RangeKind): Byte {
    match k
    case Block => 0
    case TxidIndex => 1
    case TreePosition => 2
    case PoiEventIndex => 3
  }

  function ParseRangeKind(b: Byte): (r: Option<RangeKind>)
    ensures forall k :: r == Some(k) <==> b == RangeKindId(k)
  {
    if b == 0 then Some(Block)
    else if b == 1 then Some(TxidIndex)
    else if b == 2 then Some(TreePosition)
    else if b == 3 then Some(PoiEventIndex)
    else None
  }

  const EVM_CHAIN: Byte := 0

  // ---- Writing, group by group, each before whatever follows ----

  function PrologueBytes(version: U16, dataset: Dataset, rest: Bytes): Bytes {
    MAGIC + (U16Bytes(version) + ([DatasetId(dataset)] + ([EVM_CHAIN] + rest)))
  }

  function ScopeBytes(chainId: U64, text: Bytes, rest: Bytes): Bytes
    requires |text| <= U16_MAX
  {
    U64Bytes(chainId) + (U16Bytes(|text|) + (text + rest))
  }

  function RangeBytes(kind: RangeKind, start: U64, end: U64, rest: Bytes): Bytes {
    [RangeKindId(kind)] + (U64Bytes(start) + (U64Bytes(end) + rest))
  }

  function SizeBytes(rowCount: U64, length: U64, count: U16, rest: Bytes): Bytes {
    U64Bytes(rowCount) + (U64Bytes(length) + (U16Bytes(count) + rest))
  }

  function SectionBytes(s: Section, rest: Bytes): Bytes {
    U16Bytes(s.id) + (U64Bytes(s.offset) + (U64Bytes(s.length) + rest))
  }

  function TableBytes(sections: seq<Section>, rest: Bytes): Bytes {
    if sections == [] then rest else SectionBytes(sections[0], TableBytes(sections[1..], rest))
  }

  /** Sizes, section table and payload. */
  function TailBytes(rowCount: U64, length: U64, sections: seq<Section>, payload: Bytes): Bytes
    requires |sections| <= U16_MAX
  {
    SizeBytes(rowCount, length, |sections|, TableBytes(sections, payload))
  }

  /** A chunk file whose contract is spelled `text`. */
  function Layout(h: Header, text: Bytes, payload: Bytes): Bytes
    requires |text| <= U16_MAX && |h.sections| <= U16_MAX
  {
    PrologueBytes(h.formatVersion, h.dataset,
      ScopeBytes(h.chainId, text,
        RangeBytes(h.kind, h.start, h.end,
          TailBytes(h.rowCount, h.uncompressedLength, h.sections, payload))))
  }

  // ---- Reading, group by group ----

  function TakePrologue(b: Bytes): Option<(U16, Dataset, Bytes)> {
    match TakeBytes(b, |MAGIC|) case None => None case Some((magic, b1)) =>
    if magic != MAGIC then None else
    match TakeU16(b1) case None => None case Some((version, b2)) =>
    match TakeByte(b2) case None => None case Some((dataset, b3)) =>
    match TakeByte(b3) case None => None case Some((chain, b4)) =>
    if ParseDataset(dataset).None? || chain != EVM_CHAIN then None
    else Some((version, ParseDataset(dataset).value, b4))
  }

  function TakeScope(b: Bytes): Option<(U64, Bytes, Bytes)> {
    match TakeU64(b) case None => None case Some((chainId, b1)) =>
    match TakeU16(b1) case None => None case Some((length, b2)) =>
    match TakeBytes(b2, length) case None => None case Some((text, b3)) =>
    Some((chainId, text, b3))
  }

  function TakeRange(b: Bytes): Option<(RangeKind, U64, U64, Bytes)> {
    match TakeByte(b) case None => None case Some((kind, b1)) =>
    match TakeU64(b1) case None => None case Some((start, b2)) =>
    match TakeU64(b2) case None => None case Some((end, b3)) =>
    if ParseRangeKind(kind).None? then None
    else Some((ParseRangeKind(kind).value, start, end, b3))
  }

  function TakeSizes(b: Bytes): Option<(U64, U64, U16, Bytes)> {
    match TakeU64(b) case None => None case Some((rowCount, b1)) =>
    match TakeU64(b1) case None => None case Some((length, b2)) =>
    match TakeU16(b2) case None => None case Some((count, b3)) =>
    Some((rowCount, length, count, b3))
  }

  function TakeSection(b: Bytes): Option<(Section, Bytes)> {
    match TakeU16(b) case None => None case Some((id, b1)) =>
    match TakeU64(b1) case None => None case Some((offset, b2)) =>
    match TakeU64(b2) case None => None case Some((length, b3)) =>
    Some((Section(id, offset, length), b3))
  }

  function TakeTable(b: Bytes, n: nat): Option<(seq<Section>, Bytes)> {
    if n == 0 then Some(([], b))
    else match TakeSection(b) case None => None case Some((section, b1)) =>
         match TakeTable(b1, n - 1) case None => None case Some((sections, b2)) =>
         Some(([section] + sections, b2))
  }

  // ---- Each group reads back exactly what was written ----

  lemma TakesPrologue(version: U16, dataset: Dataset, rest: Bytes)
    ensures TakePrologue(PrologueBytes(version, dataset, rest)) == Some((version, dataset, rest))
  {
    var b3 := [EVM_CHAIN] + rest;
    var b2 := [DatasetId(dataset)] + b3;
    var b1 := U16Bytes(version) + b2;
    TakesBytes(MAGIC, b1);
    TakesU16(version, b2);
    TakesByte(DatasetId(dataset), b3);
    TakesByte(EVM_CHAIN, rest);
    assert ParseDataset(DatasetId(dataset)) == Some(dataset);
  }

  lemma PrologueTaken(b: Bytes)
    requires TakePrologue(b).Some?
    ensures var (version, dataset, rest) := TakePrologue(b).value;
            b == PrologueBytes(version, dataset, rest)
  {
    var (version, dataset, rest) := TakePrologue(b).value;
    assert ParseDataset(DatasetId(dataset)) == Some(dataset);
  }

  lemma TakesScope(chainId: U64, text: Bytes, rest: Bytes)
    requires |text| <= U16_MAX
    ensures TakeScope(ScopeBytes(chainId, text, rest)) == Some((chainId, text, rest))
  {
    TakesU64(chainId, U16Bytes(|text|) + (text + rest));
    TakesU16(|text|, text + rest);
    TakesBytes(text, rest);
  }

  lemma ScopeTaken(b: Bytes)
    requires TakeScope(b).Some?
    ensures var (chainId, text, rest) := TakeScope(b).value;
            |text| <= U16_MAX && b == ScopeBytes(chainId, text, rest)
  {
  }

  lemma TakesRange(kind: RangeKind, start: U64, end: U64, rest: Bytes)
    ensures TakeRange(RangeBytes(kind, start, end, rest)) == Some((kind, start, end, rest))
  {
    TakesByte(RangeKindId(kind), U64Bytes(start) + (U64Bytes(end) + rest));
    TakesU64(start, U64Bytes(end) + rest);
    TakesU64(end, rest);
    assert ParseRangeKind(RangeKindId(kind)) == Some(kind);
  }

  lemma RangeTaken(b: Bytes)
    requires TakeRange(b).Some?
    ensures var (kind, start, end, rest) := TakeRange(b).value;
            b == RangeBytes(kind, start, end, rest)
  {
    var (kind, start, end, rest) := TakeRange(b).value;
    assert ParseRangeKind(RangeKindId(kind)) == Some(kind);
  }

  lemma TakesSizes(rowCount: U64, length: U64, count: U16, rest: Bytes)
    ensures TakeSizes(SizeBytes(rowCount, length, count, rest)) == Some((rowCount, length, count, rest))
  {
    TakesU64(rowCount, U64Bytes(length) + (U16Bytes(count) + rest));
    TakesU64(length, U16Bytes(count) + rest);
    TakesU16(count, rest);
  }

  lemma SizesTaken(b: Bytes)
    requires TakeSizes(b).Some?
    ensures var (rowCount, length, count, rest) := TakeSizes(b).value;
            b == SizeBytes(rowCount, length, count, rest)
  {
  }

  lemma TakesSection(s: Section, rest: Bytes)
    ensures TakeSection(SectionBytes(s, rest)) == Some((s, rest))
  {
    TakesU16(s.id, U64Bytes(s.offset) + (U64Bytes(s.length) + rest));
    TakesU64(s.offset, U64Bytes(s.length) + rest);
    TakesU64(s.length, rest);
  }

  lemma {:induction false} TakesTable(sections: seq<Section>, rest: Bytes)
    ensures TakeTable(TableBytes(sections, rest), |sections|) == Some((sections, rest))
    decreases |sections|
  {
    if sections != [] {
      TakesSection(sections[0], TableBytes(sections[1..], rest));
      TakesTable(sections[1..], rest);
      assert sections == [sections[0]] + sections[1..];
    }
  }

  lemma {:induction false} TableTaken(b: Bytes, n: nat)
    requires TakeTable(b, n).Some?
    ensures var (sections, rest) := TakeTable(b, n).value;
            |sections| == n && b == TableBytes(sections, rest)
    decreases n
  {
    if n > 0 {
      var (section, b1) := TakeSection(b).value;
      TableTaken(b1, n - 1);
      var (sections, rest) := TakeTable(b1, n - 1).value;
      assert ([section] + sections)[1..] == sections;
    }
  }

  // ---- The whole header ----

  function TakeTail(b: Bytes): Option<(U64, U64, seq<Section>, Bytes)> {
    match TakeSizes(b) case None => None case Some((rowCount, length, count, b1)) =>
    match TakeTable(b1, count) case None => None case Some((sections, payload)) =>
    Some((rowCount, length, sections, payload))
  }

  lemma TakesTail(rowCount: U64, length: U64, sections: seq<Section>, payload: Bytes)
    requires |sections| <= U16_MAX
    ensures TakeTail(TailBytes(rowCount, length, sections, payload)) == Some((rowCount, length, sections, payload))
  {
    TakesSizes(rowCount, length, |sections|, TableBytes(sections, payload));
    TakesTable(sections, payload);
  }

  lemma TailTaken(b: Bytes)
    requires TakeTail(b).Some?
    ensures var (rowCount, length, sections, payload) := TakeTail(b).value;
            |sections| <= U16_MAX && b == TailBytes(rowCount, length, sections, payload)
  {
    var (rowCount, length, count, b1) := TakeSizes(b).value;
    SizesTaken(b);
    TableTaken(b1, count);
  }

  /** Range, sizes, section table and payload, as the rest of a header. */
  function TakeRest(b: Bytes, version: U16, dataset: Dataset, chainId: U64, contract: Address): Option<(Header, Bytes)> {
    match TakeRange(b) case None => None case Some((kind, start, end, b1)) =>
    match TakeTail(b1) case None => None case Some((rowCount, length, sections, payload)) =>
    Some((Header(version, dataset, chainId, contract, kind, start, end, rowCount, length, sections), payload))
  }

  /** Everything after the prologue. */
  function TakeBody(b: Bytes, version: U16, dataset: Dataset): (r: Option<(Header, Bytes, Bytes)>)
    ensures r.Some? ==> r.value.0.formatVersion == version && r.value.0.dataset == dataset
  {
    match TakeScope(b) case None => None case Some((chainId, text, b1)) =>
    match ParseAddress(text) case None => None case Some(contract) =>
    match TakeRest(b1, version, dataset, chainId, contract) case None => None case Some((header, payload)) =>
    Some((header, text, payload))
  }

  /** The header, the spelling of its contract, and the payload behind it. */
  function TakeHeader(b: Bytes): Option<(Header, Bytes, Bytes)> {
    match TakePrologue(b)
    case None => None
    case Some((version, dataset, b1)) => TakeBody(b1, version, dataset)
  }

  lemma TakesRest(h: Header, payload: Bytes)
    requires |h.sections| <= U16_MAX
    ensures TakeRest(RangeBytes(h.kind, h.start, h.end, TailBytes(h.rowCount, h.uncompressedLength, h.sections, payload)),
                     h.formatVersion, h.dataset, h.chainId, h.contract) == Some((h, payload))
  {
    TakesRange(h.kind, h.start, h.end, TailBytes(h.rowCount, h.uncompressedLength, h.sections, payload));
    TakesTail(h.rowCount, h.uncompressedLength, h.sections, payload);
  }

  lemma TakesHeader(h: Header, text: Bytes, payload: Bytes)
    requires |text| <= U16_MAX && |h.sections| <= U16_MAX && ParseAddress(text) == Some(h.contract)
    ensures TakeHeader(Layout(h, text, payload)) == Some((h, text, payload))
  {
    var b2 := RangeBytes(h.kind, h.start, h.end, TailBytes(h.rowCount, h.uncompressedLength, h.sections, payload));
    var b1 := ScopeBytes(h.chainId, text, b2);
    TakesPrologue(h.formatVersion, h.dataset, b1);
    TakesScope(h.chainId, text, b2);
    TakesRest(h, payload);
  }

  /** A header is read exactly when the bytes are laid out as one. */
  lemma HeaderTaken(b: Bytes)
    requires TakeHeader(b).Some?
    ensures var (h, text, payload) := TakeHeader(b).value;
            && |text| <= U16_MAX && |h.sections| <= U16_MAX && ParseAddress(text) == Some(h.contract)
            && b == Layout(h, text, payload)
  {
    var (version, dataset, b1) := TakePrologue(b).value;
    PrologueTaken(b);
    var (chainId, text, b2) := TakeScope(b1).value;
    ScopeTaken(b1);
    var (kind, start, end, b3) := TakeRange(b2).value;
    RangeTaken(b2);
    TailTaken(b3);
  }
}
