/** The textual keys of the journal table. Structured keys are only a faithful model
    if a range scan over the text visits exactly the rows of the corpus, in
    revision order; this module proves when that is so. */
module JournalKeys {
  import opened Common
  import opened KeyRange
  import opened KeyText
  import opened JournalModel

  /** List keys are 32 bytes long. */
  predicate Well(id: CorpusId) {
    |id.listKey| == 32
  }

  function IdentityText(id: CorpusId): string {
    Decimal(id.chainType) + SEPARATOR + (Decimal(id.chainId) + SEPARATOR + (id.txidVersion + SEPARATOR + Hex(id.listKey)))
  }

  function IdentityPrefix(id: CorpusId): string {
    IdentityText(id) + SEPARATOR
  }

  function DeltaPrefix(id: CorpusId): string {
    IdentityPrefix(id) + "delta|"
  }

  /** Revisions are written with twenty digits. */
  const REVISION_WIDTH: nat := 20

  function RowSuffix(k: JournalKey): (s: string)
    ensures |s| <= 26
  {
    match k
    case HeadKey(_) => "head"
    case DeltaKey(_, revision) => "delta|" + Padded(revision, REVISION_WIDTH)
    case BlockedKey(_) => "blocked"
  }

  function RowText(k: JournalKey): string {
    IdentityPrefix(k.id) + RowSuffix(k)
  }

  /** Identity `b` hides inside the key space of `a`: its version text continues
      with a separator and `a`'s list key. */
  predicate Hides(a: CorpusId, b: CorpusId) {
    && a.chainType == b.chainType && a.chainId == b.chainId
    && (|| b.txidVersion == a.txidVersion + SEPARATOR + Hex(a.listKey)
        || a.txidVersion + SEPARATOR + Hex(a.listKey) + SEPARATOR <= b.txidVersion)
  }

  lemma VersionFieldClash(x: string, hexA: string, y: string, hexB: string, suffix: string)
    requires |hexA| == |hexB| == 64 && PipeFree(hexA) && PipeFree(hexB) && |suffix| <= 26
    ensures x + SEPARATOR + hexA + SEPARATOR <= y + SEPARATOR + hexB + SEPARATOR + suffix
       <==> (x == y && hexA == hexB) || y == x + SEPARATOR + hexA || x + SEPARATOR + hexA + SEPARATOR <= y
  {
    var a := x + SEPARATOR + hexA + SEPARATOR;
    var b := y + SEPARATOR + hexB + SEPARATOR + suffix;
    assert a[|x|] == '|' && b[|y|] == '|';
    assert forall i :: |x| < i <= |x| + 64 ==> a[i] == hexA[i - |x| - 1] != '|';
    assert forall i :: |y| < i <= |y| + 64 ==> b[i] == hexB[i - |y| - 1] != '|';
    if a <= b {
      if |x| == |y| {
        assert x == a[..|x|] == b[..|x|] == y;
        assert hexA == a[|x| + 1..|x| + 65] == b[|x| + 1..|x| + 65] == hexB;
      } else if |y| == |x| + 65 {
        assert y == b[..|y|] == a[..|y|] == x + SEPARATOR + hexA;
      } else if |y| > |x| + 65 {
        assert a == b[..|a|] == y[..|a|];
      }
    }
    if y == x + SEPARATOR + hexA {
      assert b == a + (hexB + SEPARATOR + suffix);
    }
    if a <= y {
      assert b == a + (y[|a|..] + SEPARATOR + hexB + SEPARATOR + suffix);
    }
    if x == y && hexA == hexB {
      assert b == a + suffix;
    }
  }

  /** The text after the two chain fields. */
  function AfterChain(id: CorpusId): string {
    id.txidVersion + SEPARATOR + Hex(id.listKey) + SEPARATOR
  }

  lemma ChainFieldsPeel(a: CorpusId, b: CorpusId, suffix: string)
    ensures IdentityPrefix(a) <= IdentityPrefix(b) + suffix <==>
            (&& a.chainType == b.chainType && a.chainId == b.chainId
             && AfterChain(a) <= AfterChain(b) + suffix)
  {
    var ta, tb := Decimal(a.chainType), Decimal(b.chainType);
    var ia, ib := Decimal(a.chainId), Decimal(b.chainId);
    var ra, rb := AfterChain(a), AfterChain(b) + suffix;
    assert IdentityPrefix(a) == ta + SEPARATOR + (ia + SEPARATOR + ra);
    assert IdentityPrefix(b) + suffix == tb + SEPARATOR + (ib + SEPARATOR + rb);
    DecimalPipeFree(a.chainType);
    DecimalPipeFree(b.chainType);
    DecimalPipeFree(a.chainId);
    DecimalPipeFree(b.chainId);
    if IdentityPrefix(a) <= IdentityPrefix(b) + suffix {
      FirstFieldUnique(ta, ia + SEPARATOR + ra, tb, ib + SEPARATOR + rb);
      FirstFieldUnique(ia, ra, ib, rb);
      DecimalInjective(a.chainType, b.chainType);
      DecimalInjective(a.chainId, b.chainId);
    }
  }

  /** Exactly which rows a scan of one identity's prefix visits: its own, and those
      of any identity that hides inside its key space. */
  lemma IdentityScanExactly(a: CorpusId, k: JournalKey)
    requires Well(a) && Well(k.id)
    ensures IdentityPrefix(a) <= RowText(k) <==> (k.id == a || Hides(a, k.id))
  {
    var b, suffix := k.id, RowSuffix(k);
    ChainFieldsPeel(a, b, suffix);
    HexPipeFree(a.listKey);
    HexPipeFree(b.listKey);
    VersionFieldClash(a.txidVersion, Hex(a.listKey), b.txidVersion, Hex(b.listKey), suffix);
    assert AfterChain(b) + suffix == b.txidVersion + SEPARATOR + Hex(b.listKey) + SEPARATOR + suffix;
    if Hex(a.listKey) == Hex(b.listKey) {
      HexInjective(a.listKey, b.listKey);
    }
  }

  /** A version without separators cannot hide, so its rows are never visited, nor
      removed, by another identity's scan. */
  lemma PipeFreeNeverHides(a: CorpusId, b: CorpusId)
    requires PipeFree(b.txidVersion)
    ensures !Hides(a, b)
  {
    var x := a.txidVersion + SEPARATOR + Hex(a.listKey);
    assert x[|a.txidVersion|] == '|' && (x + SEPARATOR)[|a.txidVersion|] == '|';
  }

  /** Every identity has others hiding inside its key space. */
  lemma SomeIdentityHides(a: CorpusId, listKey: Bytes)
    requires Well(a) && |listKey| == 32
    ensures var b := a.(txidVersion := a.txidVersion + SEPARATOR + Hex(a.listKey), listKey := listKey);
            b != a && IdentityPrefix(a) <= RowText(HeadKey(b))
  {
    var b := a.(txidVersion := a.txidVersion + SEPARATOR + Hex(a.listKey), listKey := listKey);
    assert |b.txidVersion| > |a.txidVersion|;
    IdentityScanExactly(a, HeadKey(b));
  }

  /** Within pipe-free identities the delta scan visits exactly the corpus's deltas. */
  lemma DeltaScanExactly(a: CorpusId, k: JournalKey)
    requires Well(a) && Well(k.id) && PipeFree(k.id.txidVersion)
    ensures DeltaPrefix(a) <= RowText(k) <==> k.DeltaKey? && k.id == a
  {
    IdentityScanExactly(a, k);
    PipeFreeNeverHides(a, k.id);
    if DeltaPrefix(a) <= RowText(k) {
      DeltaPrefixGoesOn(a, RowText(k));
      SuffixAfter(k);
    }
    if k.DeltaKey? && k.id == a {
      DeltaText(a, k.revision);
    }
  }

  lemma DeltaPrefixGoesOn(a: CorpusId, text: string)
    requires DeltaPrefix(a) <= text
    ensures IdentityPrefix(a) <= text && |text| > |IdentityPrefix(a)| && text[|IdentityPrefix(a)|..][0] == 'd'
  {
    var n := |IdentityPrefix(a)|;
    assert DeltaPrefix(a)[..n] == IdentityPrefix(a) && DeltaPrefix(a)[n] == 'd';
    assert text[..n] == DeltaPrefix(a)[..n] && text[n] == DeltaPrefix(a)[n];
  }

  lemma U64FitsTwentyDigits()
    ensures U64_MAX < Pow10(REVISION_WIDTH)
  {
    assert Pow10(5) == 100000;
    assert Pow10(10) == 10000000000;
    assert Pow10(15) == 1000000000000000;
    assert Pow10(20) == 100000000000000000000;
  }

  function RevisionText(r: U64): string {
    Padded(r, REVISION_WIDTH)
  }

  lemma DeltaText(id: CorpusId, r: U64)
    ensures RowText(DeltaKey(id, r)) == DeltaPrefix(id) + RevisionText(r)
  {
    var stem := IdentityPrefix(id);
    assert stem + ("delta|" + RevisionText(r)) == (stem + "delta|") + RevisionText(r);
  }

  lemma RevisionOrder(stem: string, r: U64, r': U64, x: string, y: string)
    requires x == stem + RevisionText(r) && y == stem + RevisionText(r')
    ensures Less(x, y) <==> r < r'
  {
    U64FitsTwentyDigits();
    PaddedOrder(r, r', REVISION_WIDTH);
    LessCommonStem(stem, RevisionText(r), RevisionText(r'));
  }

  /** The scan visits deltas in revision order. */
  lemma DeltaScanAscends(id: CorpusId, r: U64, r': U64)
    ensures Less(RowText(DeltaKey(id, r)), RowText(DeltaKey(id, r'))) <==> r < r'
  {
    DeltaText(id, r);
    DeltaText(id, r');
    RevisionOrder(DeltaPrefix(id), r, r', RowText(DeltaKey(id, r)), RowText(DeltaKey(id, r')));
  }

  lemma SuffixRevision(k: JournalKey, k': JournalKey)
    requires RowSuffix(k) == RowSuffix(k')
    ensures k.DeltaKey? <==> k'.DeltaKey?
    ensures k.HeadKey? <==> k'.HeadKey?
    ensures k.DeltaKey? ==> k.revision == k'.revision
  {
    assert RowSuffix(k)[0] == RowSuffix(k')[0];
    if k.DeltaKey? && k'.DeltaKey? {
      assert RevisionText(k.revision) == RowSuffix(k)[6..];
      assert RevisionText(k'.revision) == RowSuffix(k')[6..];
      U64FitsTwentyDigits();
      PaddedOrder(k.revision, k'.revision, REVISION_WIDTH);
    }
  }

  lemma SuffixAfter(k: JournalKey)
    ensures RowText(k)[|IdentityPrefix(k.id)|..] == RowSuffix(k)
  {
  }

  /** Distinct rows of pipe-free identities have distinct keys. */
  lemma RowTextInjective(k: JournalKey, k': JournalKey)
    requires Well(k.id) && Well(k'.id) && PipeFree(k'.id.txidVersion)
    requires RowText(k) == RowText(k')
    ensures k == k'
  {
    assert IdentityPrefix(k.id) <= RowText(k');
    IdentityScanExactly(k.id, k');
    PipeFreeNeverHides(k.id, k'.id);
    SuffixAfter(k);
    SuffixAfter(k');
    SuffixRevision(k, k');
  }
}
