/** What the composite key migration does to every row, said without the rules that do it:
    which texts spell a wallet, where each row goes, and what it then holds. */
module LegacyMigration {
  import opened Common
  import opened KeyMigration
  import opened KeyText
  import opened Utf8
  import opened WalletNamespace
  import Wire

  // ---- Texts that spell a wallet ----

  predicate AllDigits(s: string) {
    forall i :: 0 <= i < |s| ==> '0' <= s[i] <= '9'
  }

  /** The value of decimal digits, highest first. */
  function DigitsValue(s: string): nat
    requires AllDigits(s)
  {
    if s == "" then 0 else 10 * DigitsValue(s[..|s| - 1]) + (s[|s| - 1] as int - '0' as int)
  }

  predicate Denotes(digits: string, n: nat) {
    digits != "" && AllDigits(digits) && DigitsValue(digits) == n
  }

  /** Digits, with or without a plus sign. */
  predicate ReadsAs(s: string, n: nat) {
    Denotes(s, n) || (s != "" && s[0] == '+' && Denotes(s[1..], n))
  }

  function Scale(k: nat): nat {
    if k == 0 then 1 else 10 * Scale(k - 1)
  }

  lemma {:induction false} ValueFront(s: string)
    requires s != "" && AllDigits(s)
    ensures AllDigits(s[1..]) && AllDigits(s[..1])
    ensures DigitsValue(s) == Scale(|s| - 1) * (s[0] as int - '0' as int) + DigitsValue(s[1..])
    decreases |s|
  {
    if |s| > 1 {
      var init := s[..|s| - 1];
      ValueFront(init);
      assert s[1..][..|s| - 2] == init[1..];
      assert Scale(|s| - 1) == 10 * Scale(|s| - 2);
      assert 10 * (Scale(|s| - 2) * (s[0] as int - '0' as int)) == Scale(|s| - 1) * (s[0] as int - '0' as int);
    } else {
      assert s[..|s| - 1] == "" && s[1..] == "";
    }
  }

  lemma {:induction false} ParseDigitsExactly(s: string, acc: nat)
    ensures ParseDigits(s, acc) == if AllDigits(s) then Some(acc * Scale(|s|) + DigitsValue(s)) else None
    decreases |s|
  {
    if s != "" {
      if '0' <= s[0] <= '9' {
        var d := s[0] as int - '0' as int;
        ParseDigitsExactly(s[1..], 10 * acc + d);
        assert AllDigits(s) <==> AllDigits(s[1..]) by {
          assert forall i :: 0 < i < |s| ==> s[i] == s[1..][i - 1];
        }
        if AllDigits(s) {
          ValueFront(s);
          ScaleUp(acc, d, Scale(|s| - 1));
        }
      }
    }
  }

  lemma ScaleUp(acc: nat, d: nat, unit: nat)
    ensures (10 * acc + d) * unit == acc * (10 * unit) + unit * d
  {
  }

  /** A number is read from digits, with or without a plus sign, that fit in 64 bits. */
  lemma ParseU64Exactly(s: string, n: U64)
    ensures ParseU64(s) == Some(n) <==> ReadsAs(s, n)
  {
    ParseDigitsExactly(s, 0);
    if s != "" { ParseDigitsExactly(s[1..], 0); }
  }

  lemma {:induction false} DecimalDenotes(n: nat)
    ensures Denotes(Decimal(n), n)
  {
    var s := Decimal(n);
    if n >= 10 {
      DecimalDenotes(n / 10);
      assert s[..|s| - 1] == Decimal(n / 10) && s[|s| - 1] == Digit(n % 10);
      assert forall i :: 0 <= i < |s| - 1 ==> s[i] == Decimal(n / 10)[i];
    } else {
      assert s[..|s| - 1] == "";
    }
  }

  /** The decimal text of a number is read as that number. */
  lemma DecimalIsRead(n: U64)
    ensures ParseU64(Decimal(n)) == Some(n)
  {
    DecimalDenotes(n);
    ParseU64Exactly(Decimal(n), n);
  }

  lemma {:induction false} PaddedDenotes(n: nat, width: nat)
    requires n < Pow10(width)
    ensures AllDigits(Padded(n, width)) && DigitsValue(Padded(n, width)) == n
  {
    var s := Padded(n, width);
    if width > 0 {
      PaddedDenotes(n / 10, width - 1);
      assert s[..|s| - 1] == Padded(n / 10, width - 1) && s[|s| - 1] == Digit(n % 10);
      assert forall i :: 0 <= i < |s| - 1 ==> s[i] == Padded(n / 10, width - 1)[i];
    }
  }

  /** A non-empty wallet name, a chain number and a contract, separated by pipes. */
  predicate SpelledBy(s: string, l: Legacy, chain: string, contract: string) {
    && l.walletId != "" && PipeFree(chain) && PipeFree(contract)
    && s == l.walletId + SEPARATOR + chain + SEPARATOR + contract
    && ReadsAs(chain, l.chainId) && ParseContract(contract) == Some(l.contract)
  }

  ghost predicate Spells(s: string, l: Legacy) {
    exists chain, contract :: SpelledBy(s, l, chain, contract)
  }

  /** A composite key is read exactly when it spells something, and as what it spells. */
  lemma ParseLegacyExactly(s: string, l: Legacy)
    ensures ParseLegacy(s) == Some(l) <==> Spells(s, l)
  {
    if ParseLegacy(s) == Some(l) {
      var (rest, contract) := RSplitOnce(s).value;
      var (walletId, chain) := RSplitOnce(rest).value;
      ParseU64Exactly(chain, l.chainId);
      assert SpelledBy(s, l, chain, contract);
    }
    if Spells(s, l) {
      var chain, contract :| SpelledBy(s, l, chain, contract);
      RSplitOfLastField(l.walletId + SEPARATOR + chain, contract);
      RSplitOfLastField(l.walletId, chain);
      ParseU64Exactly(chain, l.chainId);
    }
  }

  lemma HexDigitIsDigit(d: nat)
    requires d < 16
    ensures EncodeChar(Digit(d)) == [Wire.HexDigit(d)]
  {
  }

  lemma {:induction false} HexIsSpelled(b: Bytes)
    ensures Encode(Hex(b)) == Wire.HexOf(b)
  {
    if b != [] {
      HexIsSpelled(b[1..]);
      var high, low := b[0] / 16, b[0] % 16;
      HexDigitIsDigit(high);
      HexDigitIsDigit(low);
      EncodeTwo(Digit(high), Digit(low), Hex(b[1..]));
    }
  }

  lemma EncodeTwo(x: char, y: char, rest: string)
    ensures Encode([x, y] + rest) == EncodeChar(x) + EncodeChar(y) + Encode(rest)
  {
    assert ([x, y] + rest)[1..] == [y] + rest && ([y] + rest)[1..] == rest;
    assert EncodeChar(x) + (EncodeChar(y) + Encode(rest)) == EncodeChar(x) + EncodeChar(y) + Encode(rest);
  }

  /** The lower-case digits of a contract spell it. */
  lemma ContractIsSpelled(a: Wire.Address)
    ensures ParseContract(Hex(a)) == Some(a)
  {
    HexIsSpelled(a);
    Wire.ParsesHex(a);
    Wire.ParseHexExactly(Wire.HexOf(a), a);
    Wire.ParseAddressExactly(Wire.HexOf(a), a);
  }

  /** The composite key as it used to be written reads back. */
  lemma WrittenIsRead(walletId: string, chainId: U64, contract: Wire.Address)
    requires walletId != ""
    ensures ParseLegacy(walletId + SEPARATOR + Decimal(chainId) + SEPARATOR + Hex(contract))
      == Some(Legacy(walletId, chainId, contract))
  {
    var s, l := walletId + SEPARATOR + Decimal(chainId) + SEPARATOR + Hex(contract), Legacy(walletId, chainId, contract);
    DecimalPipeFree(chainId);
    HexPipeFree(contract);
    DecimalIsRead(chainId);
    ParseU64Exactly(Decimal(chainId), chainId);
    ContractIsSpelled(contract);
    assert SpelledBy(s, l, Decimal(chainId), Hex(contract));
    ParseLegacyExactly(s, l);
  }

  /** The number big-endian bytes stand for. */
  function BigNumber(b: Bytes): nat {
    if b == [] then 0 else 256 * BigNumber(b[..|b| - 1]) + b[|b| - 1]
  }

  lemma {:induction false} BigEndianReads(n: nat, width: nat)
    requires n < Wire.Pow256(width)
    ensures BigNumber(BigEndian(n, width)) == n
  {
    if width > 0 {
      BigEndianReads(n / 256, width - 1);
      assert BigEndian(n, width)[..width - 1] == BigEndian(n / 256, width - 1);
    }
  }

  /** A canonical key spells the domain, the length of the name, the name, the chain and the
      contract. */
  lemma CanonicalLayout(l: Legacy, size: nat) returns (b: Bytes)
    requires size == |Encode(l.walletId)| <= U64_MAX && |l.contract| == 20
    ensures Canonical(l) == Hex(b) && |b| == |KEY_DOMAIN| + size + 36
    ensures var from := |KEY_DOMAIN|;
            && b[..from] == KEY_DOMAIN && BigNumber(b[from..from + 8]) == size
            && b[from + 8..from + 8 + size] == Encode(l.walletId)
            && BigNumber(b[from + 8 + size..from + 16 + size]) == l.chainId
            && b[from + 16 + size..] == l.contract
  {
    b := Fields(KEY_DOMAIN, Encode(l.walletId), l.chainId, l.contract);
    FieldsLayout(KEY_DOMAIN, Encode(l.walletId), l.chainId, l.contract);
  }

  lemma FieldsLayout(domain: Bytes, id: Bytes, chainId: U64, contract: Bytes)
    requires |id| <= U64_MAX
    ensures var b, from := Fields(domain, id, chainId, contract), |domain|;
            && |b| == from + |id| + 16 + |contract|
            && b[..from] == domain && BigNumber(b[from..from + 8]) == |id|
            && b[from + 8..from + 8 + |id|] == id
            && BigNumber(b[from + 8 + |id|..from + 16 + |id|]) == chainId
            && b[from + 16 + |id|..] == contract
  {
    var b, from := Fields(domain, id, chainId, contract), |domain|;
    Wire.Widths();
    BigEndianReads(|id|, 8);
    BigEndianReads(chainId, 8);
    assert b[from..from + 8] == BigEndian(|id|, 8);
    assert b[from + 8..from + 8 + |id|] == id;
    assert b[from + 8 + |id|..from + 16 + |id|] == BigEndian(chainId, 8);
  }

  // ---- Where each row goes ----

  /** A metadata row keeps its bytes; a composite key becomes canonical. */
  ghost predicate MetaBecomes(k: string, v: Bytes, k': string, v': Bytes) {
    v' == v && if PipeFree(k) then k' == k else exists l :: Spells(k, l) && k' == Canonical(l)
  }

  predicate Splits(k: string, wallet: string, id: string) {
    PipeFree(id) && k == wallet + SEPARATOR + id
  }

  ghost predicate CompositeUtxo(k: string, k': string, wallet: string, id: string, l: Legacy) {
    Splits(k, wallet, id) && !PipeFree(wallet) && Spells(wallet, l) && k' == Canonical(l) + SEPARATOR + id
  }

  /** A UTXO row keeps its bytes and its id; a composite wallet becomes canonical. */
  ghost predicate UtxoBecomes(k: string, v: Bytes, k': string, v': Bytes) {
    && v' == v
    && (if PipeFree(k) || exists wallet, id :: Splits(k, wallet, id) && PipeFree(wallet) then k' == k
        else exists wallet, id, l :: CompositeUtxo(k, k', wallet, id, l))
  }

  function ContextName(chainId: U64, wallet: string, commitment: Bytes): string {
    Decimal(chainId) + SEPARATOR + wallet + SEPARATOR + Hex(commitment)
  }

  /** Schema 7 left the wallet out. */
  predicate NamedBy(k: string, r: Context, schemaSeven: bool) {
    || k == ContextName(r.chainId, r.wallet, r.commitment)
    || (schemaSeven && k == Decimal(r.chainId) + SEPARATOR + Hex(r.commitment))
  }

  /** A context row keeps chain, commitment and everything else; a composite wallet becomes
      canonical in the record and in the key. */
  ghost predicate ContextBecomes(k: string, v: ContextRow, k': string, v': ContextRow, schemaSeven: bool) {
    && v.Decoded? && v'.Decoded?
    && if PipeFree(v.record.wallet) then k' == k && v' == v
       else
         && RecordBecomes(v.record, v'.record)
         && NamedBy(k, v.record, schemaSeven)
         && k' == ContextName(v'.record.chainId, v'.record.wallet, v'.record.commitment)
  }

  // ---- The rules give exactly these ----

  predicate Gives<V(==)>(rename: (string, V) -> Rename<V>, k: string, v: V, k': string, v': V) {
    !rename(k, v).Invalid? && TargetOf(rename, k, v) == (k', v')
  }

  lemma MetaRuleExactly(k: string, v: Bytes, k': string, v': Bytes)
    ensures Gives(RenameMeta, k, v, k', v') <==> MetaBecomes(k, v, k', v')
  {
    if ParseLegacy(k).Some? { ParseLegacyExactly(k, ParseLegacy(k).value); }
    if !PipeFree(k) && MetaBecomes(k, v, k', v') {
      var l :| Spells(k, l) && k' == Canonical(l);
      ParseLegacyExactly(k, l);
    }
  }

  lemma UtxoRuleExactly(k: string, v: Bytes, k': string, v': Bytes)
    ensures Gives(RenameUtxo, k, v, k', v') <==> UtxoBecomes(k, v, k', v')
  {
    forall wallet, id | Splits(k, wallet, id) ensures RSplitOnce(k) == Some((wallet, id)) {
      RSplitOfLastField(wallet, id);
    }
    if !PipeFree(k) {
      var (wallet, id) := RSplitOnce(k).value;
      assert Splits(k, wallet, id);
      if ParseLegacy(wallet).Some? { ParseLegacyExactly(wallet, ParseLegacy(wallet).value); }
      if Gives(RenameUtxo, k, v, k', v') && !PipeFree(wallet) {
        assert CompositeUtxo(k, k', wallet, id, ParseLegacy(wallet).value);
      }
      if UtxoBecomes(k, v, k', v') && !PipeFree(wallet) {
        var w, i, l :| CompositeUtxo(k, k', w, i, l);
        ParseLegacyExactly(w, l);
      }
    }
  }

  lemma ContextNameIsKey(r: Context)
    ensures ContextKey(r) == ContextName(r.chainId, r.wallet, r.commitment)
  {
  }

  /** A record with a composite wallet, and what it becomes. */
  ghost predicate RecordBecomes(r: Context, r': Context) {
    && r'.chainId == r.chainId && r'.commitment == r.commitment && r'.rest == r.rest
    && exists l :: Spells(r.wallet, l) && r'.wallet == Canonical(l)
  }

  lemma RecordExactly(r: Context, r': Context)
    ensures RecordBecomes(r, r') <==>
      ParseLegacy(r.wallet).Some? && r' == r.(wallet := Canonical(ParseLegacy(r.wallet).value))
  {
    if ParseLegacy(r.wallet).Some? { ParseLegacyExactly(r.wallet, ParseLegacy(r.wallet).value); }
    if RecordBecomes(r, r') {
      var l :| Spells(r.wallet, l) && r'.wallet == Canonical(l);
      ParseLegacyExactly(r.wallet, l);
    }
  }

  lemma PendingRuleExactly(k: string, v: ContextRow, k': string, v': ContextRow)
    ensures Gives(RenamePending, k, v, k', v') <==> ContextBecomes(k, v, k', v', true)
  {
    if v.Decoded? && v'.Decoded? && !PipeFree(v.record.wallet) {
      RecordExactly(v.record, v'.record);
      ContextNameIsKey(v.record);
      ContextNameIsKey(v'.record);
    }
  }

  lemma RecoveryRuleExactly(k: string, v: ContextRow, k': string, v': ContextRow)
    ensures Gives(RenameRecovery, k, v, k', v') <==> ContextBecomes(k, v, k', v', false)
  {
    if v.Decoded? && v'.Decoded? && !PipeFree(v.record.wallet) {
      RecordExactly(v.record, v'.record);
      ContextNameIsKey(v.record);
      ContextNameIsKey(v'.record);
    }
  }

  // ---- Whole tables ----

  /** Every row has somewhere to go, no two rows go to one key, and no row moves onto a key
      that is taken. */
  ghost predicate Orderly<V(!new)>(table: map<string, V>, becomes: (string, V, string, V) -> bool) {
    && (forall k :: k in table ==> exists k', v' :: becomes(k, table[k], k', v'))
    && (forall k, k', v' :: k in table && becomes(k, table[k], k', v') ==> k' == k || k' !in table)
    && (forall k, j, k', v', w' ::
          k in table && j in table && k != j && becomes(k, table[k], k', v') ==> !becomes(j, table[j], k', w'))
  }

  /** Every row is where it goes, holding what it becomes, and nothing else is there. */
  ghost predicate Arrives<V(!new)>(before: map<string, V>, becomes: (string, V, string, V) -> bool, after: map<string, V>) {
    && (forall k, k', v' :: k in before && becomes(k, before[k], k', v') ==> k' in after && after[k'] == v')
    && (forall k' :: k' in after ==> exists k :: k in before && becomes(k, before[k], k', after[k']))
  }

  ghost predicate RuleIs<V(!new)>(rename: (string, V) -> Rename<V>, becomes: (string, V, string, V) -> bool) {
    && (forall k, v, k', v' :: Gives(rename, k, v, k', v') <==> becomes(k, v, k', v'))
    && (forall k, v :: rename(k, v).Move? ==> rename(k, v).key != k)
  }

  lemma OrderlyExactly<V(!new)>(table: map<string, V>, rename: (string, V) -> Rename<V>, becomes: (string, V, string, V) -> bool)
    requires RuleIs(rename, becomes)
    ensures Orderly(table, becomes) <==> Parses(table, rename) && NoConflict(table, rename)
  {
    if Orderly(table, becomes) {
      OrderlyIsAccepted(table, rename, becomes);
    }
    if Parses(table, rename) && NoConflict(table, rename) {
      AcceptedIsOrderly(table, rename, becomes);
    }
  }

  lemma OrderlyIsAccepted<V(!new)>(table: map<string, V>, rename: (string, V) -> Rename<V>, becomes: (string, V, string, V) -> bool)
    requires RuleIs(rename, becomes) && Orderly(table, becomes)
    ensures Parses(table, rename) && NoConflict(table, rename)
  {
    forall k | k in table ensures !rename(k, table[k]).Invalid? {
      var k', v' :| becomes(k, table[k], k', v');
      assert Gives(rename, k, table[k], k', v');
    }
    forall k | k in table && rename(k, table[k]).Move? ensures rename(k, table[k]).key !in table {
      GivesMove(table, rename, becomes, k);
    }
    forall k, j | k in table && j in table && k != j && rename(k, table[k]).Move? && rename(j, table[j]).Move?
      ensures rename(k, table[k]).key != rename(j, table[j]).key
    {
      GivesMove(table, rename, becomes, k);
      GivesMove(table, rename, becomes, j);
    }
  }

  lemma GivesMove<V(!new)>(table: map<string, V>, rename: (string, V) -> Rename<V>, becomes: (string, V, string, V) -> bool, k: string)
    requires RuleIs(rename, becomes) && k in table && rename(k, table[k]).Move?
    ensures becomes(k, table[k], rename(k, table[k]).key, rename(k, table[k]).value) && rename(k, table[k]).key != k
  {
    assert Gives(rename, k, table[k], rename(k, table[k]).key, rename(k, table[k]).value);
  }

  lemma AcceptedIsOrderly<V(!new)>(table: map<string, V>, rename: (string, V) -> Rename<V>, becomes: (string, V, string, V) -> bool)
    requires RuleIs(rename, becomes) && Parses(table, rename) && NoConflict(table, rename)
    ensures Orderly(table, becomes)
  {
    forall k | k in table ensures exists k', v' :: becomes(k, table[k], k', v') {
      var (k', v') := TargetOf(rename, k, table[k]);
      assert Gives(rename, k, table[k], k', v');
    }
    forall k, k', v' | k in table && becomes(k, table[k], k', v') ensures k' == k || k' !in table {
      assert Gives(rename, k, table[k], k', v');
    }
    forall k, j, k', v', w' | k in table && j in table && k != j && becomes(k, table[k], k', v')
      ensures !becomes(j, table[j], k', w')
    {
      assert Gives(rename, k, table[k], k', v');
      assert becomes(j, table[j], k', w') <==> Gives(rename, j, table[j], k', w');
      RenamingIsInjective(table, rename, k, j);
    }
  }

  lemma RenamedArrives<V(!new)>(
    before: map<string, V>, rename: (string, V) -> Rename<V>, becomes: (string, V, string, V) -> bool, after: map<string, V>)
    requires RuleIs(rename, becomes) && Parses(before, rename) && Renamed(before, rename, after)
    ensures Arrives(before, becomes, after)
  {
    forall k, k', v' | k in before && becomes(k, before[k], k', v') ensures k' in after && after[k'] == v' {
      assert Gives(rename, k, before[k], k', v');
    }
    forall k' | k' in after ensures exists k :: k in before && becomes(k, before[k], k', after[k']) {
      var k :| k in before && TargetOf(rename, k, before[k]).0 == k';
      assert Gives(rename, k, before[k], k', after[k']);
    }
  }

  // ---- The four rules ----

  ghost predicate PendingBecomes(k: string, v: ContextRow, k': string, v': ContextRow) {
    ContextBecomes(k, v, k', v', true)
  }

  ghost predicate RecoveryBecomes(k: string, v: ContextRow, k': string, v': ContextRow) {
    ContextBecomes(k, v, k', v', false)
  }

  lemma MetaRule()
    ensures RuleIs(RenameMeta, MetaBecomes)
  {
    forall k, v, k', v' ensures Gives(RenameMeta, k, v, k', v') <==> MetaBecomes(k, v, k', v') {
      MetaRuleExactly(k, v, k', v');
    }
    forall k, v | RenameMeta(k, v).Move? ensures RenameMeta(k, v).key != k {
      WalletPipeFree(Canonical(ParseLegacy(k).value));
    }
  }

  lemma UtxoRule()
    ensures RuleIs(RenameUtxo, UtxoBecomes)
  {
    forall k, v, k', v' ensures Gives(RenameUtxo, k, v, k', v') <==> UtxoBecomes(k, v, k', v') {
      UtxoRuleExactly(k, v, k', v');
    }
    forall k, v | RenameUtxo(k, v).Move? ensures RenameUtxo(k, v).key != k {
      var (wallet, id) := RSplitOnce(k).value;
      WalletPipeFree(Canonical(ParseLegacy(wallet).value));
      RSplitOfLastField(Canonical(ParseLegacy(wallet).value), id);
    }
  }

  /** A moved context row never stays under its own key. */
  lemma ContextMovesAway(k: string, v: ContextRow)
    requires RenamePending(k, v).Move?
    ensures RenamePending(k, v).key != k
  {
    var r, l := v.record, ParseLegacy(v.record.wallet).value;
    var to := Canonical(l);
    WalletPipeFree(to);
    HexPipeFree(r.commitment);
    DecimalPipeFree(r.chainId);
    RSplitOfLastField(ChainWallet(r.chainId, to), Hex(r.commitment));
    RSplitOfLastField(ChainWallet(r.chainId, r.wallet), Hex(r.commitment));
    RSplitOfLastField(Decimal(r.chainId), Hex(r.commitment));
    if ChainWallet(r.chainId, to) == ChainWallet(r.chainId, r.wallet) {
      ChainWalletTextUnique(r.chainId, to, r.chainId, r.wallet);
    }
    assert ChainWallet(r.chainId, to)[|Decimal(r.chainId)|] == '|';
  }

  lemma PendingRule()
    ensures RuleIs(RenamePending, PendingBecomes)
  {
    forall k, v, k', v' ensures Gives(RenamePending, k, v, k', v') <==> PendingBecomes(k, v, k', v') {
      PendingRuleExactly(k, v, k', v');
    }
    forall k, v | RenamePending(k, v).Move? ensures RenamePending(k, v).key != k {
      ContextMovesAway(k, v);
    }
  }

  lemma RecoveryRule()
    ensures RuleIs(RenameRecovery, RecoveryBecomes)
  {
    forall k, v, k', v' ensures Gives(RenameRecovery, k, v, k', v') <==> RecoveryBecomes(k, v, k', v') {
      RecoveryRuleExactly(k, v, k', v');
    }
    forall k, v | RenameRecovery(k, v).Move? ensures RenameRecovery(k, v).key != k {
      RecoveryMovesAlike(k, v);
      ContextMovesAway(k, v);
    }
  }

  ghost predicate AllOrderly(t: LegacyTables) {
    && Orderly(t.metas, MetaBecomes) && Orderly(t.utxos, UtxoBecomes)
    && Orderly(t.pending, PendingBecomes) && Orderly(t.recovery, RecoveryBecomes)
  }

  ghost predicate AllArrive(t: LegacyTables, t': LegacyTables) {
    && Arrives(t.metas, MetaBecomes, t'.metas) && Arrives(t.utxos, UtxoBecomes, t'.utxos)
    && Arrives(t.pending, PendingBecomes, t'.pending) && Arrives(t.recovery, RecoveryBecomes, t'.recovery)
  }

  lemma OrderlyIsMigratable(t: LegacyTables)
    ensures AllOrderly(t) <==> Migratable(t)
  {
    MetaRule();
    UtxoRule();
    PendingRule();
    RecoveryRule();
    OrderlyExactly(t.metas, RenameMeta, MetaBecomes);
    OrderlyExactly(t.utxos, RenameUtxo, UtxoBecomes);
    OrderlyExactly(t.pending, RenamePending, PendingBecomes);
    OrderlyExactly(t.recovery, RenameRecovery, RecoveryBecomes);
  }

  lemma MigratedArrives(t: LegacyTables, t': LegacyTables)
    requires Migratable(t) && Migrated(t, t')
    ensures AllArrive(t, t')
  {
    MetaRule();
    UtxoRule();
    PendingRule();
    RecoveryRule();
    RenamedArrives(t.metas, RenameMeta, MetaBecomes, t'.metas);
    RenamedArrives(t.utxos, RenameUtxo, UtxoBecomes, t'.utxos);
    RenamedArrives(t.pending, RenamePending, PendingBecomes, t'.pending);
    RenamedArrives(t.recovery, RenameRecovery, RecoveryBecomes, t'.recovery);
  }

  // ---- The store ----

  datatype LegacyMoves = LegacyMoves(
    metas: seq<MoveRow<Bytes>>, utxos: seq<MoveRow<Bytes>>,
    pending: seq<MoveRow<ContextRow>>, recovery: seq<MoveRow<ContextRow>>)

  ghost predicate AllParse(t: LegacyTables) {
    Parses(t.metas, RenameMeta) && Parses(t.utxos, RenameUtxo) && Parses(t.pending, RenamePending) && Parses(t.recovery, RenameRecovery)
  }

  ghost predicate NoneConflict(t: LegacyTables) {
    && NoConflict(t.metas, RenameMeta) && NoConflict(t.utxos, RenameUtxo)
    && NoConflict(t.pending, RenamePending) && NoConflict(t.recovery, RenameRecovery)
  }

  ghost predicate AllCollected(t: LegacyTables, m: LegacyMoves) {
    && Collected(t.metas, RenameMeta, t.metas.Keys, m.metas)
    && Collected(t.utxos, RenameUtxo, t.utxos.Keys, m.utxos)
    && Collected(t.pending, RenamePending, t.pending.Keys, m.pending)
    && Collected(t.recovery, RenameRecovery, t.recovery.Keys, m.recovery)
  }

  method CollectAll(t: LegacyTables) returns (r: Option<LegacyMoves>)
    ensures r.Some? <==> AllParse(t)
    ensures r.Some? ==> AllCollected(t, r.value)
  {
    var metas := CollectRows(t.metas, RenameMeta);
    if metas.None? { return None; }
    var utxos := CollectRows(t.utxos, RenameUtxo);
    if utxos.None? { return None; }
    var pending := CollectRows(t.pending, RenamePending);
    if pending.None? { return None; }
    var recovery := CollectRows(t.recovery, RenameRecovery);
    if recovery.None? { return None; }
    return Some(LegacyMoves(metas.value, utxos.value, pending.value, recovery.value));
  }

  method PreflightAll(t: LegacyTables, m: LegacyMoves) returns (ok: bool)
    requires AllCollected(t, m)
    ensures ok <==> NoneConflict(t)
  {
    ok := PreflightMoves(t.metas, RenameMeta, m.metas);
    if !ok { return; }
    ok := PreflightMoves(t.utxos, RenameUtxo, m.utxos);
    if !ok { return; }
    ok := PreflightMoves(t.pending, RenamePending, m.pending);
    if !ok { return; }
    ok := PreflightMoves(t.recovery, RenameRecovery, m.recovery);
  }

  method ApplyAll(t: LegacyTables, m: LegacyMoves) returns (t': LegacyTables)
    requires AllCollected(t, m) && NoneConflict(t)
    ensures Migrated(t, t')
  {
    var metas, utxos, pending, recovery;
    metas := ApplyMoves(t.metas, RenameMeta, m.metas);
    utxos := ApplyMoves(t.utxos, RenameUtxo, m.utxos);
    pending := ApplyMoves(t.pending, RenamePending, m.pending);
    recovery := ApplyMoves(t.recovery, RenameRecovery, m.recovery);
    t' := LegacyTables(metas, utxos, pending, recovery);
  }

  class LegacyStore {
    var tables: LegacyTables

    constructor (tables: LegacyTables)
      ensures this.tables == tables
    {
      this.tables := tables;
    }

    /** Collects and checks all four tables before it writes any of them. */
    method MigrateCompositeKeys() returns (ok: bool)
      modifies this
      ensures ok <==> AllOrderly(old(tables))
      ensures if ok then AllArrive(old(tables), tables) && Migrated(old(tables), tables) else tables == old(tables)
    {
      OrderlyIsMigratable(tables);
      var moves := CollectAll(tables);
      if moves.None? { return false; }
      ok := PreflightAll(tables, moves.value);
      if ok {
        tables := ApplyAll(tables, moves.value);
        MigratedArrives(old(tables), tables);
      }
    }
  }
}
