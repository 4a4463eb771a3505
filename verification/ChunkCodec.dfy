/** Encoding and decoding chunk envelopes. */
module ChunkCodec {
  import opened ArtifactKinds
  import opened ChunkLayout
  import opened Common
  import opened Sorting
  import opened Wire

  // ---- Validation ----

  function SectionEnd(s: Section): nat {
    s.offset + s.length
  }

  predicate Apart(a: Section, b: Section) {
    SectionEnd(a) <= b.offset || SectionEnd(b) <= a.offset
  }

  /** The header fits the payload: lengths agree, section ids are unique, sections lie
      inside the payload, and non-empty sections share no byte. */
  predicate Fits(h: Header, payload: Bytes) {
    && h.uncompressedLength == |payload|
    && UniqueIds(h.sections)
    && (forall i :: 0 <= i < |h.sections| ==> SectionEnd(h.sections[i]) <= |payload|)
    && SectionsApart(h.sections)
  }

  predicate UniqueIds(sections: seq<Section>) {
    forall i, j :: 0 <= i < j < |sections| ==> sections[i].id != sections[j].id
  }

  predicate SectionsApart(sections: seq<Section>) {
    forall i, j :: 0 <= i < j < |sections| && sections[i].length > 0 && sections[j].length > 0
      ==> Apart(sections[i], sections[j])
  }

  function SectionKey(s: Section): seq<int> {
    [s.offset, SectionEnd(s), s.id]
  }

  /** The non-empty sections, in order. */
  function NonEmpty(sections: seq<Section>): seq<Section> {
    if sections == [] then []
    else NonEmpty(sections[..|sections| - 1])
         + (if sections[|sections| - 1].length > 0 then [sections[|sections| - 1]] else [])
  }

  lemma {:induction false} NonEmptyHas(sections: seq<Section>, s: Section)
    ensures s in NonEmpty(sections) <==> s in sections && s.length > 0
    decreases |sections|
  {
    if sections != [] {
      var n := |sections| - 1;
      NonEmptyHas(sections[..n], s);
      assert sections == sections[..n] + [sections[n]];
    }
  }

  lemma {:induction false} NonEmptyCount(sections: seq<Section>, s: Section)
    requires UniqueIds(sections)
    ensures multiset(NonEmpty(sections))[s] <= 1
    decreases |sections|
  {
    if sections != [] {
      var n := |sections| - 1;
      NonEmptyCount(sections[..n], s);
      NonEmptyHas(sections[..n], s);
      if s == sections[n] {
        assert s !in sections[..n];
        assert s !in NonEmpty(sections[..n]);
      }
    }
  }

  lemma RepeatCounts<T>(s: seq<T>, i: nat, j: nat)
    requires i < j < |s| && s[i] == s[j]
    ensures multiset(s)[s[i]] >= 2
  {
    assert s == s[..j] + s[j..];
    assert s[i] in s[..j] && s[j] == s[j..][0];
    assert s[j] in s[j..];
  }

  predicate AdjacentApart(sorted: seq<Section>) {
    forall i :: 0 <= i < |sorted| - 1 ==> SectionEnd(sorted[i]) <= sorted[i + 1].offset
  }

  lemma SortedOffsets(sorted: seq<Section>, i: nat, j: nat)
    requires SortedBy(sorted, SectionKey) && i < j < |sorted|
    ensures sorted[i].offset <= sorted[j].offset
  {
    assert LexLeq(SectionKey(sorted[i]), SectionKey(sorted[j]));
  }

  lemma {:induction false} AdjacentReaches(sorted: seq<Section>, i: nat, j: nat)
    requires AdjacentApart(sorted) && i < j < |sorted|
    ensures SectionEnd(sorted[i]) <= sorted[j].offset
    decreases j
  {
    assert SectionEnd(sorted[j - 1]) <= sorted[j].offset;
    if i < j - 1 { AdjacentReaches(sorted, i, j - 1); }
  }

  /** Comparing neighbours in sorted order finds every overlap. */
  lemma NeighboursDecide(sections: seq<Section>)
    requires UniqueIds(sections)
    ensures AdjacentApart(SortBy(NonEmpty(sections), SectionKey)) <==> SectionsApart(sections)
  {
    var sorted := SortBy(NonEmpty(sections), SectionKey);
    if AdjacentApart(sorted) {
      forall i, j | 0 <= i < j < |sections| && sections[i].length > 0 && sections[j].length > 0
        ensures Apart(sections[i], sections[j])
      {
        SortedPairApart(sections, i, j);
      }
    }
    if SectionsApart(sections) {
      forall k | 0 <= k < |sorted| - 1 ensures SectionEnd(sorted[k]) <= sorted[k + 1].offset {
        NeighboursApart(sections, k);
      }
    }
  }

  lemma InSorted(sections: seq<Section>, s: Section)
    ensures s in SortBy(NonEmpty(sections), SectionKey) <==> s in sections && s.length > 0
  {
    var sorted := SortBy(NonEmpty(sections), SectionKey);
    assert s in sorted <==> s in multiset(sorted);
    assert s in NonEmpty(sections) <==> s in multiset(NonEmpty(sections));
    NonEmptyHas(sections, s);
  }

  lemma PlaceInSorted(sections: seq<Section>, i: nat) returns (a: nat)
    requires i < |sections| && sections[i].length > 0
    ensures var sorted := SortBy(NonEmpty(sections), SectionKey); a < |sorted| && sorted[a] == sections[i]
  {
    var sorted := SortBy(NonEmpty(sections), SectionKey);
    InSorted(sections, sections[i]);
    a :| 0 <= a < |sorted| && sorted[a] == sections[i];
  }

  lemma SortedPairApart(sections: seq<Section>, i: nat, j: nat)
    requires i < j < |sections| && sections[i].length > 0 && sections[j].length > 0 && UniqueIds(sections)
    requires AdjacentApart(SortBy(NonEmpty(sections), SectionKey))
    ensures Apart(sections[i], sections[j])
  {
    var sorted := SortBy(NonEmpty(sections), SectionKey);
    var a := PlaceInSorted(sections, i);
    var b := PlaceInSorted(sections, j);
    assert sections[i].id != sections[j].id;
    PlacesApart(sorted, a, b);
  }

  lemma PlacesApart(sorted: seq<Section>, a: nat, b: nat)
    requires AdjacentApart(sorted) && a < |sorted| && b < |sorted| && a != b
    ensures Apart(sorted[a], sorted[b])
  {
    if a < b { AdjacentReaches(sorted, a, b); } else { AdjacentReaches(sorted, b, a); }
  }

  lemma NeighboursApart(sections: seq<Section>, k: nat)
    requires UniqueIds(sections) && SectionsApart(sections)
    requires k + 1 < |SortBy(NonEmpty(sections), SectionKey)|
    ensures var sorted := SortBy(NonEmpty(sections), SectionKey);
            SectionEnd(sorted[k]) <= sorted[k + 1].offset
  {
    var sorted := SortBy(NonEmpty(sections), SectionKey);
    var x, y := sorted[k], sorted[k + 1];
    SortedOffsets(sorted, k, k + 1);
    InSorted(sections, x);
    InSorted(sections, y);
    NonEmptyCount(sections, x);
    if x == y { RepeatCounts(sorted, k, k + 1); }
    var a :| 0 <= a < |sections| && sections[a] == x;
    var b :| 0 <= b < |sections| && sections[b] == y;
    assert a != b;
    assert Apart(x, y);
  }

  /** The check as it runs: ids into a set, bounds as they come, then sorted neighbours. */
  method ValidateForPayload(h: Header, payload: Bytes) returns (ok: bool)
    ensures ok == Fits(h, payload)
  {
    if h.uncompressedLength != |payload| { return false; }
    var sections := h.sections;
    var ids: set<U16> := {};
    var ranges := [];
    for n := 0 to |sections|
      invariant ids == set i | 0 <= i < n :: sections[i].id
      invariant UniqueIds(sections[..n])
      invariant forall i :: 0 <= i < n ==> SectionEnd(sections[i]) <= |payload|
      invariant ranges == NonEmpty(sections[..n])
    {
      var s := sections[n];
      if s.id in ids {
        return false;
      }
      ids := ids + {s.id};
      if s.offset + s.length > U64_MAX || s.offset + s.length > |payload| { return false; }
      assert sections[..n + 1][..n] == sections[..n];
      if s.length > 0 { ranges := ranges + [s]; }
    }
    assert sections[..|sections|] == sections;
    NeighboursDecide(sections);
    ok := NeighboursClear(SortBy(ranges, SectionKey));
  }

  method NeighboursClear(sorted: seq<Section>) returns (clear: bool)
    ensures clear == AdjacentApart(sorted)
  {
    var n := 1;
    while n < |sorted|
      invariant n >= 1
      invariant forall i :: 0 <= i < n - 1 && i < |sorted| - 1 ==> SectionEnd(sorted[i]) <= sorted[i + 1].offset
    {
      if sorted[n].offset < SectionEnd(sorted[n - 1]) {
        assert !(SectionEnd(sorted[n - 1]) <= sorted[n - 1 + 1].offset);
        return false;
      }
      n := n + 1;
    }
    clear := true;
  }

  // ---- The codec as functions ----

  function Encode(e: Envelope): Option<Bytes> {
    if !Fits(e.header, e.payload) || |e.header.sections| > U16_MAX then None
    else Some(Layout(e.header, AddressText(e.header.contract), e.payload))
  }

  /** The header and payload; envelopes over 64 MiB or over their dataset's limit, other
      format versions, and headers that do not fit are refused. */
  function Decode(b: Bytes): Option<Envelope> {
    match TakeHeader(b)
    case None => None
    case Some((h, text, payload)) => Judged(h, payload, |b|)
  }

  function Judged(h: Header, payload: Bytes, size: nat): Option<Envelope> {
    if h.formatVersion != FORMAT_VERSION || size > MAX_DECODED || size > DecodedLimit(h.dataset) || !Fits(h, payload)
    then None
    else Some(Envelope(h, payload))
  }

  /** The bytes are a chunk file of the envelope, its contract spelled `text`. */
  predicate Spells(b: Bytes, e: Envelope, text: Bytes) {
    && |text| <= U16_MAX && |e.header.sections| <= U16_MAX
    && ParseAddress(text) == Some(e.header.contract)
    && b == Layout(e.header, text, e.payload)
  }

  /** What a reader accepts: this format version, a fitting header, and a size within the
      dataset's limit. */
  predicate Readable(e: Envelope, size: nat) {
    e.header.formatVersion == FORMAT_VERSION && Fits(e.header, e.payload) && size <= DecodedLimit(e.header.dataset)
  }

  function TextOf(b: Bytes): Bytes
    requires TakeHeader(b).Some?
  {
    TakeHeader(b).value.1
  }

  lemma DecodedIsSpelled(b: Bytes)
    requires Decode(b).Some?
    ensures Spells(b, Decode(b).value, TextOf(b)) && Readable(Decode(b).value, |b|)
  {
    HeaderTaken(b);
  }

  lemma SpelledIsTaken(b: Bytes, e: Envelope, text: Bytes)
    requires Spells(b, e, text)
    ensures TakeHeader(b) == Some((e.header, text, e.payload))
  {
    TakesHeader(e.header, text, e.payload);
  }

  lemma JudgedIsReadable(e: Envelope, size: nat)
    ensures Judged(e.header, e.payload, size) == if Readable(e, size) then Some(e) else None
  {
  }

  lemma SpelledDecodes(b: Bytes, e: Envelope, text: Bytes)
    requires Spells(b, e, text)
    ensures Decode(b) == if Readable(e, |b|) then Some(e) else None
  {
    SpelledIsTaken(b, e, text);
    JudgedIsReadable(e, |b|);
  }

  /** Decoding accepts exactly the laid-out files of readable envelopes, and returns that
      envelope. */
  lemma DecodeIsExact(b: Bytes, e: Envelope)
    ensures Decode(b) == Some(e) <==> Readable(e, |b|) && exists text :: Spells(b, e, text)
  {
    if Decode(b) == Some(e) {
      DecodedIsSpelled(b);
    }
    forall text | Spells(b, e, text) ensures Readable(e, |b|) ==> Decode(b) == Some(e) {
      SpelledDecodes(b, e, text);
    }
  }

  lemma EncodedIsSpelled(e: Envelope)
    requires Encode(e).Some?
    ensures Spells(Encode(e).value, e, AddressText(e.header.contract))
  {
    ParsesAddress(e.header.contract);
    assert |AddressText(e.header.contract)| == 42;
  }

  /** Decoding undoes encoding, and does so exactly for envelopes of this format version
      within their dataset's limit. */
  lemma RoundTrip(e: Envelope)
    requires Encode(e).Some?
    ensures Decode(Encode(e).value) == Some(e) <==>
              e.header.formatVersion == FORMAT_VERSION && |Encode(e).value| <= DecodedLimit(e.header.dataset)
  {
    EncodedIsSpelled(e);
    SpelledDecodes(Encode(e).value, e, AddressText(e.header.contract));
  }

  /** Whatever decodes can be encoded again, and gives the same bytes exactly when the
      contract was spelled canonically. */
  lemma ReEncode(b: Bytes)
    requires Decode(b).Some?
    ensures Encode(Decode(b).value).Some?
    ensures b == Encode(Decode(b).value).value <==> TextOf(b) == AddressText(Decode(b).value.header.contract)
  {
    var e := Decode(b).value;
    DecodedIsSpelled(b);
    EncodedIsSpelled(e);
    TakesHeader(e.header, AddressText(e.header.contract), e.payload);
  }

  // ---- Sections ----

  /** In a decoded file each section resolves to its own bytes. */
  lemma SectionsResolve(b: Bytes, i: nat)
    requires Decode(b).Some? && i < |Decode(b).value.header.sections|
    ensures var e := Decode(b).value;
            var s := e.header.sections[i];
            && SectionEnd(s) <= |e.payload|
            && FindSection(e, s.id) == Some(e.payload[s.offset..SectionEnd(s)])
  {
    FirstOfId(Decode(b).value.header.sections, i);
  }

  /** The index of the first section with the id, or the number of sections. */
  function IndexOf(sections: seq<Section>, id: U16): (k: nat)
    ensures k <= |sections|
    ensures forall j :: 0 <= j < k ==> sections[j].id != id
    ensures k < |sections| ==> sections[k].id == id
  {
    if sections == [] then 0
    else if sections[0].id == id then 0
    else 1 + IndexOf(sections[1..], id)
  }

  lemma FirstOfId(sections: seq<Section>, i: nat)
    requires UniqueIds(sections) && i < |sections|
    ensures IndexOf(sections, sections[i].id) == i
  {
    var k := IndexOf(sections, sections[i].id);
    assert k <= i;
  }

  function FindSection(e: Envelope, id: U16): Option<Bytes> {
    var k := IndexOf(e.header.sections, id);
    if k == |e.header.sections| || SectionEnd(e.header.sections[k]) > |e.payload| then None
    else Some(e.payload[e.header.sections[k].offset..SectionEnd(e.header.sections[k])])
  }

  method SectionPayload(e: Envelope, id: U16) returns (bytes: Option<Bytes>)
    ensures bytes == FindSection(e, id)
  {
    var sections := e.header.sections;
    var n := 0;
    while n < |sections| && sections[n].id != id
      invariant 0 <= n <= |sections|
      invariant forall j :: 0 <= j < n ==> sections[j].id != id
    {
      n := n + 1;
    }
    assert n == IndexOf(sections, id);
    if n == |sections| { return None; }
    var start, end := sections[n].offset, sections[n].offset + sections[n].length;
    if end > |e.payload| { return None; }
    bytes := Some(e.payload[start..end]);
  }

  // ---- The reader ----

  class Cursor {
    const bytes: Bytes
    var position: nat

    predicate Valid()
      reads this
    {
      position <= |bytes|
    }

    function Rest(): Bytes
      requires Valid()
      reads this
    {
      bytes[position..]
    }

    constructor (bytes: Bytes)
      ensures Valid() && this.bytes == bytes && Rest() == bytes
    {
      this.bytes := bytes;
      position := 0;
    }

    /** Takes bytes off the front, or leaves the cursor where it is. */
    method ReadExact(length: nat) returns (r: Option<Bytes>)
      requires Valid()
      modifies this
      ensures Valid()
      ensures r.Some? == TakeBytes(old(Rest()), length).Some?
      ensures r.Some? ==> TakeBytes(old(Rest()), length) == Some((r.value, Rest()))
      ensures r.None? ==> position == old(position)
    {
      if position + length > |bytes| { return None; }
      assert bytes[position..][..length] == bytes[position..position + length];
      assert bytes[position..][length..] == bytes[position + length..];
      r := Some(bytes[position..position + length]);
      position := position + length;
    }

    method ReadU8() returns (r: Option<Byte>)
      requires Valid()
      modifies this
      ensures Valid()
      ensures r.Some? == TakeByte(old(Rest())).Some?
      ensures r.Some? ==> TakeByte(old(Rest())) == Some((r.value, Rest()))
    {
      var b := ReadExact(1);
      if b.None? { return None; }
      r := Some(b.value[0]);
    }

    method ReadU16() returns (r: Option<U16>)
      requires Valid()
      modifies this
      ensures Valid()
      ensures r.Some? == TakeU16(old(Rest())).Some?
      ensures r.Some? ==> TakeU16(old(Rest())) == Some((r.value, Rest()))
    {
      var b := ReadExact(2);
      if b.None? { return None; }
      Widths();
      r := Some(Number(b.value));
    }

    method ReadU64() returns (r: Option<U64>)
      requires Valid()
      modifies this
      ensures Valid()
      ensures r.Some? == TakeU64(old(Rest())).Some?
      ensures r.Some? ==> TakeU64(old(Rest())) == Some((r.value, Rest()))
    {
      var b := ReadExact(8);
      if b.None? { return None; }
      Widths();
      r := Some(Number(b.value));
    }
  }

  /** The section table, entry by entry. */
  method ReadTable(cursor: Cursor, count: nat) returns (r: Option<seq<Section>>)
    requires cursor.Valid()
    modifies cursor
    ensures cursor.Valid()
    ensures r.Some? == TakeTable(old(cursor.Rest()), count).Some?
    ensures r.Some? ==> TakeTable(old(cursor.Rest()), count) == Some((r.value, cursor.Rest()))
  {
    ghost var start := cursor.Rest();
    PendingStart(start, count);
    var sections := [];
    for n := 0 to count
      invariant cursor.Valid() && |sections| == n
      invariant Pending(TakeTable(start, count), sections, cursor.Rest(), count - n)
    {
      ghost var before := cursor.Rest();
      var section := ReadSection(cursor);
      if section.None? { return None; }
      PendingStep(TakeTable(start, count), sections, before, count - n);
      sections := sections + [section.value];
    }
    assert sections + [] == sections;
    r := Some(sections);
  }

  lemma PendingStart(b: Bytes, n: nat)
    ensures Pending(TakeTable(b, n), [], b, n)
  {
    if TakeTable(b, n).Some? {
      var (sections, rest) := TakeTable(b, n).value;
      assert [] + sections == sections;
    }
  }

  /** What reading the whole table comes to, given what has been read so far. */
  ghost predicate Pending(whole: Option<(seq<Section>, Bytes)>, done: seq<Section>, rest: Bytes, left: nat) {
    whole == match TakeTable(rest, left)
             case None => None
             case Some((more, b)) => Some((done + more, b))
  }

  lemma PendingStep(whole: Option<(seq<Section>, Bytes)>, done: seq<Section>, rest: Bytes, left: nat)
    requires left > 0 && Pending(whole, done, rest, left) && TakeSection(rest).Some?
    ensures Pending(whole, done + [TakeSection(rest).value.0], TakeSection(rest).value.1, left - 1)
  {
    var (section, b) := TakeSection(rest).value;
    if TakeTable(b, left - 1).Some? {
      var (more, b') := TakeTable(b, left - 1).value;
      assert done + ([section] + more) == (done + [section]) + more;
    }
  }

  method ReadSection(cursor: Cursor) returns (r: Option<Section>)
    requires cursor.Valid()
    modifies cursor
    ensures cursor.Valid()
    ensures r.Some? == TakeSection(old(cursor.Rest())).Some?
    ensures r.Some? ==> TakeSection(old(cursor.Rest())) == Some((r.value, cursor.Rest()))
  {
    var id := cursor.ReadU16();
    if id.None? { return None; }
    var offset := cursor.ReadU64();
    if offset.None? { return None; }
    var length := cursor.ReadU64();
    if length.None? { return None; }
    r := Some(Section(id.value, offset.value, length.value));
  }

  predicate PrologueAccepted(b: Bytes, size: nat) {
    && TakePrologue(b).Some?
    && TakePrologue(b).value.0 == FORMAT_VERSION && size <= DecodedLimit(TakePrologue(b).value.1)
  }

  method ReadPrologue(cursor: Cursor) returns (r: Option<(U16, Dataset)>)
    requires cursor.Valid()
    modifies cursor
    ensures cursor.Valid()
    ensures r.Some? == PrologueAccepted(old(cursor.Rest()), |cursor.bytes|)
    ensures r.Some? ==> TakePrologue(old(cursor.Rest())) == Some((r.value.0, r.value.1, cursor.Rest()))
  {
    var magic := cursor.ReadExact(|MAGIC|);
    if magic.None? || magic.value != MAGIC { return None; }
    var version := cursor.ReadU16();
    if version.None? || version.value != FORMAT_VERSION { return None; }
    var dataset := cursor.ReadU8();
    if dataset.None? || ParseDataset(dataset.value).None? { return None; }
    var kind := ParseDataset(dataset.value).value;
    if |cursor.bytes| > DecodedLimit(kind) { return None; }
    var chain := cursor.ReadU8();
    if chain.None? || chain.value != EVM_CHAIN { return None; }
    r := Some((version.value, kind));
  }

  method ReadScope(cursor: Cursor) returns (r: Option<(U64, Bytes)>)
    requires cursor.Valid()
    modifies cursor
    ensures cursor.Valid()
    ensures r.Some? == TakeScope(old(cursor.Rest())).Some?
    ensures r.Some? ==> TakeScope(old(cursor.Rest())) == Some((r.value.0, r.value.1, cursor.Rest()))
  {
    var chainId := cursor.ReadU64();
    if chainId.None? { return None; }
    var length := cursor.ReadU16();
    if length.None? { return None; }
    var text := cursor.ReadExact(length.value);
    if text.None? { return None; }
    r := Some((chainId.value, text.value));
  }

  method ReadRange(cursor: Cursor) returns (r: Option<(RangeKind, U64, U64)>)
    requires cursor.Valid()
    modifies cursor
    ensures cursor.Valid()
    ensures r.Some? == TakeRange(old(cursor.Rest())).Some?
    ensures r.Some? ==> TakeRange(old(cursor.Rest())) == Some((r.value.0, r.value.1, r.value.2, cursor.Rest()))
  {
    var kind := cursor.ReadU8();
    if kind.None? || ParseRangeKind(kind.value).None? { return None; }
    var start := cursor.ReadU64();
    if start.None? { return None; }
    var end := cursor.ReadU64();
    if end.None? { return None; }
    r := Some((ParseRangeKind(kind.value).value, start.value, end.value));
  }

  method ReadTail(cursor: Cursor) returns (r: Option<(U64, U64, seq<Section>)>)
    requires cursor.Valid()
    modifies cursor
    ensures cursor.Valid()
    ensures r.Some? == TakeTail(old(cursor.Rest())).Some?
    ensures r.Some? ==> TakeTail(old(cursor.Rest())) == Some((r.value.0, r.value.1, r.value.2, cursor.Rest()))
  {
    var rowCount := cursor.ReadU64();
    if rowCount.None? { return None; }
    var length := cursor.ReadU64();
    if length.None? { return None; }
    var count := cursor.ReadU16();
    if count.None? { return None; }
    var sections := ReadTable(cursor, count.value);
    if sections.None? { return None; }
    r := Some((rowCount.value, length.value, sections.value));
  }

  method ReadRest(cursor: Cursor, version: U16, dataset: Dataset, chainId: U64, contract: Address)
    returns (r: Option<Header>)
    requires cursor.Valid()
    modifies cursor
    ensures cursor.Valid()
    ensures r.Some? == TakeRest(old(cursor.Rest()), version, dataset, chainId, contract).Some?
    ensures r.Some? ==>
              TakeRest(old(cursor.Rest()), version, dataset, chainId, contract) == Some((r.value, cursor.Rest()))
  {
    var range := ReadRange(cursor);
    if range.None? { return None; }
    var tail := ReadTail(cursor);
    if tail.None? { return None; }
    r := Some(Header(version, dataset, chainId, contract, range.value.0, range.value.1, range.value.2,
                     tail.value.0, tail.value.1, tail.value.2));
  }

  method ReadBody(cursor: Cursor, version: U16, dataset: Dataset) returns (r: Option<Header>)
    requires cursor.Valid()
    modifies cursor
    ensures cursor.Valid()
    ensures r.Some? == TakeBody(old(cursor.Rest()), version, dataset).Some?
    ensures r.Some? ==> TakeBody(old(cursor.Rest()), version, dataset).value.0 == r.value
    ensures r.Some? ==> TakeBody(old(cursor.Rest()), version, dataset).value.2 == cursor.Rest()
  {
    var scope := ReadScope(cursor);
    if scope.None? { return None; }
    var contract := ParseAddress(scope.value.1);
    if contract.None? { return None; }
    r := ReadRest(cursor, version, dataset, scope.value.0, contract.value);
  }

  /** A header this reader takes, with the size limit of its dataset. */
  predicate Takes(b: Bytes) {
    && TakeHeader(b).Some?
    && TakeHeader(b).value.0.formatVersion == FORMAT_VERSION
    && |b| <= DecodedLimit(TakeHeader(b).value.0.dataset)
  }

  /** Reads the header, stopping at the first field that is wrong. */
  method DecodeHeader(bytes: Bytes) returns (r: Option<(Header, nat)>)
    ensures r.Some? == Takes(bytes)
    ensures r.Some? ==> r.value.1 <= |bytes|
    ensures r.Some? ==> TakeHeader(bytes).value.0 == r.value.0
    ensures r.Some? ==> TakeHeader(bytes).value.2 == bytes[r.value.1..]
  {
    var cursor := new Cursor(bytes);
    var prologue := ReadPrologue(cursor);
    if prologue.None? { return None; }
    var header := ReadBody(cursor, prologue.value.0, prologue.value.1);
    if header.None? { return None; }
    r := Some((header.value, cursor.position));
  }

  /** Decoding as it runs. */
  method DecodeEnvelope(bytes: Bytes) returns (r: Option<Envelope>)
    ensures r == Decode(bytes)
  {
    if |bytes| > MAX_DECODED { return None; }
    var decoded := DecodeHeader(bytes);
    if decoded.None? { return None; }
    var (header, offset) := decoded.value;
    var ok := ValidateForPayload(header, bytes[offset..]);
    if !ok { return None; }
    r := Some(Envelope(header, bytes[offset..]));
  }

  // ---- The writer ----

  method WriteTable(bytes: Bytes, sections: seq<Section>, payload: Bytes) returns (r: Bytes)
    ensures r == bytes + TableBytes(sections, payload)
  {
    r := bytes;
    for n := 0 to |sections|
      invariant r + TableBytes(sections[n..], payload) == bytes + TableBytes(sections, payload)
    {
      var s := sections[n];
      ghost var rest := TableBytes(sections[n + 1..], payload);
      assert sections[n..][1..] == sections[n + 1..];
      assert TableBytes(sections[n..], payload) == U16Bytes(s.id) + (U64Bytes(s.offset) + (U64Bytes(s.length) + rest));
      AppendThree(r, U16Bytes(s.id), U64Bytes(s.offset), U64Bytes(s.length), rest);
      r := r + U16Bytes(s.id) + U64Bytes(s.offset) + U64Bytes(s.length);
    }
    r := r + payload;
  }

  lemma AppendThree(r: Bytes, a: Bytes, b: Bytes, c: Bytes, rest: Bytes)
    ensures (r + a + b + c) + rest == r + (a + (b + (c + rest)))
  {
  }

  /** Encoding as it runs: append field after field. */
  method EncodeEnvelope(e: Envelope) returns (r: Option<Bytes>)
    ensures r == Encode(e)
  {
    var h := e.header;
    var ok := ValidateForPayload(h, e.payload);
    if !ok { return None; }
    if |h.sections| > U16_MAX { return None; }
    var text := AddressText(h.contract);
    ghost var table := TableBytes(h.sections, e.payload);
    ghost var sizes := TailBytes(h.rowCount, h.uncompressedLength, h.sections, e.payload);
    ghost var range := RangeBytes(h.kind, h.start, h.end, sizes);
    ghost var scope := ScopeBytes(h.chainId, text, range);
    var bytes := MAGIC + U16Bytes(h.formatVersion) + [DatasetId(h.dataset)] + [EVM_CHAIN];
    AppendThree(MAGIC, U16Bytes(h.formatVersion), [DatasetId(h.dataset)], [EVM_CHAIN], scope);
    ghost var full := bytes + scope;
    AppendThree(bytes, U64Bytes(h.chainId), U16Bytes(|text|), text, range);
    bytes := bytes + U64Bytes(h.chainId) + U16Bytes(|text|) + text;
    assert full == bytes + range;
    AppendThree(bytes, [RangeKindId(h.kind)], U64Bytes(h.start), U64Bytes(h.end), sizes);
    bytes := bytes + [RangeKindId(h.kind)] + U64Bytes(h.start) + U64Bytes(h.end);
    assert full == bytes + sizes;
    AppendThree(bytes, U64Bytes(h.rowCount), U64Bytes(h.uncompressedLength), U16Bytes(|h.sections|), table);
    bytes := bytes + U64Bytes(h.rowCount) + U64Bytes(h.uncompressedLength) + U16Bytes(|h.sections|);
    assert full == bytes + table;
    bytes := WriteTable(bytes, h.sections, e.payload);
    r := Some(bytes);
  }
}
