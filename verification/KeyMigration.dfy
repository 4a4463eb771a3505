/** Migrating rows keyed by historical composite wallet identifiers
    (`wallet|chain|contract`) to canonical wallet cache keys. */
module KeyMigration {
  import opened Common
  import opened KeyText
  import opened Utf8
  import opened WalletNamespace
  import Wire

  /** The bytes of "railgun-wallet-cache-key-v1". */
  const KEY_DOMAIN: Bytes := [
    0x72, 0x61, 0x69, 0x6c, 0x67, 0x75, 0x6e, 0x2d, 0x77, 0x61, 0x6c, 0x6c, 0x65, 0x74, 0x2d,
    0x63, 0x61, 0x63, 0x68, 0x65, 0x2d, 0x6b, 0x65, 0x79, 0x2d, 0x76, 0x31]

  // ---- Canonical wallet keys ----

  function BigEndian(n: nat, width: nat): (b: Bytes)
    ensures |b| == width
  {
    if width == 0 then [] else BigEndian(n / 256, width - 1) + [n % 256]
  }

  lemma {:induction false} BigEndianInjective(n: nat, m: nat, width: nat)
    requires n < Wire.Pow256(width) && m < Wire.Pow256(width) && BigEndian(n, width) == BigEndian(m, width)
    ensures n == m
  {
    if width > 0 {
      var a, b := BigEndian(n, width), BigEndian(m, width);
      assert a[..width - 1] == BigEndian(n / 256, width - 1) && b[..width - 1] == BigEndian(m / 256, width - 1);
      assert a[width - 1] == n % 256 && b[width - 1] == m % 256;
      BigEndianInjective(n / 256, m / 256, width - 1);
    }
  }

  /** Domain, length-prefixed identifier, chain and contract. */
  function Fields(domain: Bytes, id: Bytes, chainId: U64, contract: Bytes): (b: Bytes)
    ensures b != []
  {
    domain + (BigEndian(|id|, 8) + (id + (BigEndian(chainId, 8) + contract)))
  }

  lemma SplitsOnce(a: Bytes, b: Bytes, a': Bytes, b': Bytes)
    requires a + b == a' + b' && (|a| == |a'| || |b| == |b'|)
    ensures a == a' && b == b'
  {
    assert |a + b| == |a' + b'|;
    assert a == (a + b)[..|a|] && b == (a + b)[|a|..];
    assert a' == (a' + b')[..|a'|] && b' == (a' + b')[|a'|..];
  }

  lemma FieldsInjective(domain: Bytes, id: Bytes, c: U64, a: Bytes, id': Bytes, c': U64, a': Bytes)
    requires |a| == |a'| == 20
    requires Fields(domain, id, c, a) == Fields(domain, id', c', a')
    ensures id == id' && c == c' && a == a'
  {
    var (x, y) := (id + (BigEndian(c, 8) + a), id' + (BigEndian(c', 8) + a'));
    SplitsOnce(domain, BigEndian(|id|, 8) + x, domain, BigEndian(|id'|, 8) + y);
    SplitsOnce(BigEndian(|id|, 8), x, BigEndian(|id'|, 8), y);
    SplitsOnce(id, BigEndian(c, 8) + a, id', BigEndian(c', 8) + a');
    SplitsOnce(BigEndian(c, 8), a, BigEndian(c', 8), a');
    Wire.Widths();
    BigEndianInjective(c, c', 8);
  }

  lemma {:induction false} HexIsLowerCase(bytes: Bytes)
    ensures forall i :: 0 <= i < |Hex(bytes)| ==> '0' <= Hex(bytes)[i] <= '9' || 'a' <= Hex(bytes)[i] <= 'f'
  {
    if bytes != [] { HexIsLowerCase(bytes[1..]); }
  }

  function HexKey(bytes: Bytes): (key: WalletKey)
    requires bytes != []
  {
    HexIsLowerCase(bytes);
    Hex(bytes)
  }

  function CanonicalKey(walletId: string, chainId: U64, contract: Bytes): (key: WalletKey) {
    HexKey(Fields(KEY_DOMAIN, Encode(walletId), chainId, contract))
  }

  /** A canonical key determines wallet, chain and contract. */
  lemma CanonicalKeyInjective(w: string, c: U64, a: Bytes, w': string, c': U64, a': Bytes)
    requires |a| == |a'| == 20
    requires CanonicalKey(w, c, a) == CanonicalKey(w', c', a')
    ensures w == w' && c == c' && a == a'
  {
    HexInjective(Fields(KEY_DOMAIN, Encode(w), c, a), Fields(KEY_DOMAIN, Encode(w'), c', a'));
    FieldsInjective(KEY_DOMAIN, Encode(w), c, a, Encode(w'), c', a');
    EncodeInjective(w, w');
  }

  // ---- Historical identifiers ----

  function ParseDigits(s: string, acc: nat): Option<nat>
    decreases |s|
  {
    if s == "" then Some(acc)
    else if '0' <= s[0] <= '9' then ParseDigits(s[1..], 10 * acc + (s[0] as int - '0' as int))
    else None
  }

  /** Decimal text with an optional sign, within 64 bits. */
  function ParseU64(s: string): Option<U64> {
    var digits := if s != "" && s[0] == '+' then s[1..] else s;
    if digits == "" then None
    else match ParseDigits(digits, 0)
         case Some(n) => if n <= U64_MAX then Some(n) else None
         case None => None
  }

  /** Twenty bytes of hexadecimal, in either case, with or without `0x`. */
  function ParseContract(s: string): Option<Wire.Address> {
    Wire.ParseAddress(Encode(s))
  }

  datatype Legacy = Legacy(walletId: string, chainId: U64, contract: Bytes)

  function ParseLegacy(s: string): (r: Option<Legacy>)
    ensures r.Some? ==> |r.value.contract| == 20
  {
    match RSplitOnce(s)
    case None => None
    case Some((rest, contractText)) =>
      match RSplitOnce(rest)
      case None => None
      case Some((walletId, chainText)) =>
        match (ParseU64(chainText), ParseContract(contractText))
        case (Some(chainId), Some(contract)) =>
          if walletId == "" then None else Some(Legacy(walletId, chainId, contract))
        case _ => None
  }

  function Canonical(l: Legacy): WalletKey {
    CanonicalKey(l.walletId, l.chainId, l.contract)
  }

  // ---- How each table renames a row ----

  datatype Rename<V> = Keep | Invalid | Move(key: string, value: V)

  datatype Context = Context(chainId: U64, wallet: string, commitment: Bytes, rest: Bytes)

  datatype ContextRow = Decoded(record: Context) | Undecodable

  function ContextKey(r: Context): string {
    ChainWalletPrefix(r.chainId, r.wallet) + Hex(r.commitment)
  }

  function SchemaSevenKey(r: Context): string {
    Decimal(r.chainId) + SEPARATOR + Hex(r.commitment)
  }

  function RenameMeta(key: string, value: Bytes): Rename<Bytes> {
    if PipeFree(key) then Keep
    else match ParseLegacy(key)
         case None => Invalid
         case Some(l) => Move(Canonical(l), value)
  }

  function RenameUtxo(key: string, value: Bytes): Rename<Bytes> {
    match RSplitOnce(key)
    case None => Keep
    case Some((wallet, utxoId)) =>
      if PipeFree(wallet) then Keep
      else match ParseLegacy(wallet)
           case None => Invalid
           case Some(l) => Move(Canonical(l) + SEPARATOR + utxoId, value)
  }

  function RenamePending(key: string, row: ContextRow): Rename<ContextRow> {
    if row.Undecodable? then Invalid
    else if PipeFree(row.record.wallet) then Keep
    else match ParseLegacy(row.record.wallet)
         case None => Invalid
         case Some(l) =>
           if key != ContextKey(row.record) && key != SchemaSevenKey(row.record) then Invalid
           else
             var record := row.record.(wallet := Canonical(l));
             Move(ContextKey(record), Decoded(record))
  }

  function RenameRecovery(key: string, row: ContextRow): Rename<ContextRow> {
    if row.Undecodable? then Invalid
    else if PipeFree(row.record.wallet) then Keep
    else match ParseLegacy(row.record.wallet)
         case None => Invalid
         case Some(l) =>
           if key != ContextKey(row.record) then Invalid
           else
             var record := row.record.(wallet := Canonical(l));
             Move(ContextKey(record), Decoded(record))
  }

  // ---- Collect, preflight, apply ----

  datatype MoveRow<V> = MoveRow(source: string, target: string, value: V)

  function TargetOf<V>(rename: (string, V) -> Rename<V>, key: string, value: V): (string, V) {
    match rename(key, value)
    case Move(target, moved) => (target, moved)
    case _ => (key, value)
  }

  ghost predicate Parses<V>(table: map<string, V>, rename: (string, V) -> Rename<V>) {
    forall k :: k in table ==> !rename(k, table[k]).Invalid?
  }

  /** No two moved rows share a destination, and no destination is already a key. */
  ghost predicate NoConflict<V>(table: map<string, V>, rename: (string, V) -> Rename<V>) {
    && (forall k :: k in table && rename(k, table[k]).Move? ==> rename(k, table[k]).key !in table)
    && (forall k, k' ::
          (k in table && k' in table && k != k' && rename(k, table[k]).Move? && rename(k', table[k']).Move?) ==>
            rename(k, table[k]).key != rename(k', table[k']).key)
  }

  /** `after` is `before` with every row at its target, and nothing else. */
  ghost predicate Renamed<V>(before: map<string, V>, rename: (string, V) -> Rename<V>, after: map<string, V>) {
    && (forall k :: k in before ==>
          var (target, value) := TargetOf(rename, k, before[k]);
          target in after && after[target] == value)
    && (forall t :: t in after ==>
          exists k :: k in before && TargetOf(rename, k, before[k]).0 == t)
  }

  ghost predicate Collected<V>(table: map<string, V>, rename: (string, V) -> Rename<V>, done: set<string>, rows: seq<MoveRow<V>>) {
    && done <= table.Keys
    && (forall k :: k in done ==> !rename(k, table[k]).Invalid?)
    && (forall i :: 0 <= i < |rows| ==>
          && rows[i].source in done
          && rename(rows[i].source, table[rows[i].source]) == Move(rows[i].target, rows[i].value))
    && (forall i, j :: 0 <= i < j < |rows| ==> rows[i].source != rows[j].source)
    && (forall k :: k in done && rename(k, table[k]).Move? ==> exists i :: 0 <= i < |rows| && rows[i].source == k)
  }

  method CollectRows<V>(table: map<string, V>, rename: (string, V) -> Rename<V>)
    returns (r: Option<seq<MoveRow<V>>>)
    ensures r.Some? <==> Parses(table, rename)
    ensures r.Some? ==> Collected(table, rename, table.Keys, r.value)
  {
    var todo, rows := table.Keys, [];
    while todo != {}
      invariant todo <= table.Keys && Collected(table, rename, table.Keys - todo, rows)
      decreases |todo|
    {
      var key :| key in todo;
      ghost var before := rows;
      match rename(key, table[key]) {
        case Invalid => return None;
        case Keep =>
        case Move(target, value) => rows := rows + [MoveRow(key, target, value)];
      }
      forall k | k in table.Keys - (todo - {key}) && rename(k, table[k]).Move?
        ensures exists i :: 0 <= i < |rows| && rows[i].source == k
      {
        if k == key {
          assert rows[|rows| - 1].source == k;
        } else {
          var i :| 0 <= i < |before| && before[i].source == k;
          assert rows[i].source == k;
        }
      }
      todo := todo - {key};
    }
    assert table.Keys - {} == table.Keys;
    return Some(rows);
  }

  /** Rejects a repeated destination, or one that is already a key. */
  method Preflight<V>(table: map<string, V>, rows: seq<MoveRow<V>>) returns (ok: bool)
    ensures ok <==>
      && (forall i :: 0 <= i < |rows| ==> rows[i].target !in table)
      && (forall i, j :: 0 <= i < j < |rows| ==> rows[i].target != rows[j].target)
  {
    var destinations: set<string> := {};
    for n := 0 to |rows|
      invariant forall i :: 0 <= i < n ==> rows[i].target !in table && rows[i].target in destinations
      invariant forall i, j :: 0 <= i < j < n ==> rows[i].target != rows[j].target
      invariant forall d :: d in destinations ==> exists i :: 0 <= i < n && rows[i].target == d
    {
      if rows[n].target in destinations || rows[n].target in table {
        return false;
      }
      destinations := destinations + {rows[n].target};
    }
    return true;
  }

  lemma PreflightIsNoConflict<V>(table: map<string, V>, rename: (string, V) -> Rename<V>, rows: seq<MoveRow<V>>)
    requires Collected(table, rename, table.Keys, rows)
    ensures NoConflict(table, rename) <==>
      (&& (forall i :: 0 <= i < |rows| ==> rows[i].target !in table)
       && (forall i, j :: 0 <= i < j < |rows| ==> rows[i].target != rows[j].target))
  {
  }

  method WriteTargets<V>(table: map<string, V>, rows: seq<MoveRow<V>>) returns (after: map<string, V>)
    requires forall i :: 0 <= i < |rows| ==> rows[i].target !in table
    requires forall i, j :: 0 <= i < j < |rows| ==> rows[i].target != rows[j].target
    ensures forall i :: 0 <= i < |rows| ==> rows[i].target in after && after[rows[i].target] == rows[i].value
    ensures forall k :: k in after <==> k in table || exists i :: 0 <= i < |rows| && rows[i].target == k
    ensures forall k :: k in table ==> after[k] == table[k]
  {
    after := table;
    for n := 0 to |rows|
      invariant forall i :: 0 <= i < n ==> rows[i].target in after && after[rows[i].target] == rows[i].value
      invariant forall k :: k in after <==> k in table || exists i :: 0 <= i < n && rows[i].target == k
      invariant forall k :: k in table ==> after[k] == table[k]
    {
      after := after[rows[n].target := rows[n].value];
    }
  }

  method RemoveSources<V>(table: map<string, V>, rows: seq<MoveRow<V>>) returns (after: map<string, V>)
    ensures forall k :: k in after <==> k in table && forall i :: 0 <= i < |rows| ==> rows[i].source != k
    ensures forall k :: k in after ==> after[k] == table[k]
  {
    after := table;
    for n := 0 to |rows|
      invariant forall k :: k in after <==> k in table && forall i :: 0 <= i < n ==> rows[i].source != k
      invariant forall k :: k in after ==> after[k] == table[k]
    {
      after := after - {rows[n].source};
    }
  }

  /** Writes every destination, then removes every source. */
  method Apply<V>(table: map<string, V>, rows: seq<MoveRow<V>>) returns (after: map<string, V>)
    requires forall i :: 0 <= i < |rows| ==> rows[i].source in table && rows[i].target !in table
    requires forall i, j :: 0 <= i < j < |rows| ==> rows[i].target != rows[j].target
    ensures forall i :: 0 <= i < |rows| ==> rows[i].target in after && after[rows[i].target] == rows[i].value
    ensures forall k :: k in after <==>
      (k in table && forall i :: 0 <= i < |rows| ==> rows[i].source != k)
      || exists i :: 0 <= i < |rows| && rows[i].target == k
    ensures forall k :: k in after && k in table ==> after[k] == table[k]
  {
    var written := WriteTargets(table, rows);
    after := RemoveSources(written, rows);
  }

  lemma AppliedIsRenamed<V>(table: map<string, V>, rename: (string, V) -> Rename<V>, rows: seq<MoveRow<V>>, after: map<string, V>)
    requires Collected(table, rename, table.Keys, rows) && NoConflict(table, rename)
    requires forall i :: 0 <= i < |rows| ==> rows[i].target in after && after[rows[i].target] == rows[i].value
    requires forall k :: k in after <==>
      (k in table && forall i :: 0 <= i < |rows| ==> rows[i].source != k)
      || exists i :: 0 <= i < |rows| && rows[i].target == k
    requires forall k :: k in after && k in table ==> after[k] == table[k]
    ensures Renamed(table, rename, after)
  {
    forall k | k in table
      ensures var (target, value) := TargetOf(rename, k, table[k]); target in after && after[target] == value
    {
      if rename(k, table[k]).Move? {
        var i :| 0 <= i < |rows| && rows[i].source == k;
        assert rows[i].target in after;
      }
    }
    forall t | t in after
      ensures exists k :: k in table && TargetOf(rename, k, table[k]).0 == t
    {
      if t in table && forall i :: 0 <= i < |rows| ==> rows[i].source != t {
        assert TargetOf(rename, t, table[t]).0 == t;
      } else {
        var i :| 0 <= i < |rows| && rows[i].target == t;
        assert TargetOf(rename, rows[i].source, table[rows[i].source]).0 == t;
      }
    }
  }

  /** Preflight of the moves a table asks for. */
  method PreflightMoves<V>(table: map<string, V>, rename: (string, V) -> Rename<V>, rows: seq<MoveRow<V>>) returns (ok: bool)
    requires Collected(table, rename, table.Keys, rows)
    ensures ok <==> NoConflict(table, rename)
  {
    PreflightIsNoConflict(table, rename, rows);
    ok := Preflight(table, rows);
  }

  method ApplyMoves<V>(table: map<string, V>, rename: (string, V) -> Rename<V>, rows: seq<MoveRow<V>>) returns (after: map<string, V>)
    requires Collected(table, rename, table.Keys, rows) && NoConflict(table, rename)
    ensures Renamed(table, rename, after)
  {
    PreflightIsNoConflict(table, rename, rows);
    after := Apply(table, rows);
    AppliedIsRenamed(table, rename, rows, after);
  }

  // ---- When two rows meet ----

  lemma CanonicalsMeetExactly(l: Legacy, l': Legacy)
    requires |l.contract| == |l'.contract| == 20
    ensures Canonical(l) == Canonical(l') <==> l == l'
  {
    if Canonical(l) == Canonical(l') {
      CanonicalKeyInjective(l.walletId, l.chainId, l.contract, l'.walletId, l'.chainId, l'.contract);
    }
  }

  /** Two metadata rows share a destination exactly when they name the same wallet,
      chain and contract. */
  lemma MetaTargetsMeetExactly(k: string, v: Bytes, k': string, v': Bytes)
    requires RenameMeta(k, v).Move? && RenameMeta(k', v').Move?
    ensures RenameMeta(k, v).key == RenameMeta(k', v').key <==> ParseLegacy(k) == ParseLegacy(k')
  {
    CanonicalsMeetExactly(ParseLegacy(k).value, ParseLegacy(k').value);
  }

  /** Two UTXO rows share a destination exactly when wallet, chain, contract and UTXO id
      are the same. */
  lemma UtxoTargetsMeetExactly(k: string, v: Bytes, k': string, v': Bytes)
    requires RenameUtxo(k, v).Move? && RenameUtxo(k', v').Move?
    ensures RenameUtxo(k, v).key == RenameUtxo(k', v').key <==>
      && ParseLegacy(RSplitOnce(k).value.0) == ParseLegacy(RSplitOnce(k').value.0)
      && RSplitOnce(k).value.1 == RSplitOnce(k').value.1
  {
    var (w, id) := RSplitOnce(k).value;
    var (w', id') := RSplitOnce(k').value;
    var l, l' := ParseLegacy(w).value, ParseLegacy(w').value;
    RSplitOfLastField(Canonical(l), id);
    RSplitOfLastField(Canonical(l'), id');
    CanonicalsMeetExactly(l, l');
  }

  /** The name of a context row once its wallet is canonical. */
  lemma ContextKeysMeetExactly(r: Context, l: Legacy, r': Context, l': Legacy)
    requires |l.contract| == |l'.contract| == 20
    ensures ContextKey(r.(wallet := Canonical(l))) == ContextKey(r'.(wallet := Canonical(l')))
       <==> r.chainId == r'.chainId && l == l' && r.commitment == r'.commitment
  {
    HexPipeFree(r.commitment);
    HexPipeFree(r'.commitment);
    RSplitOfLastField(ChainWallet(r.chainId, Canonical(l)), Hex(r.commitment));
    RSplitOfLastField(ChainWallet(r'.chainId, Canonical(l')), Hex(r'.commitment));
    if ContextKey(r.(wallet := Canonical(l))) == ContextKey(r'.(wallet := Canonical(l'))) {
      HexInjective(r.commitment, r'.commitment);
      ChainWalletTextUnique(r.chainId, Canonical(l), r'.chainId, Canonical(l'));
    }
    CanonicalsMeetExactly(l, l');
  }

  /** Two pending or recovery rows share a destination exactly when chain, wallet and
      commitment are the same. */
  lemma ContextTargetsMeetExactly(k: string, v: ContextRow, k': string, v': ContextRow)
    ensures RenamePending(k, v).Move? && RenamePending(k', v').Move? ==>
      (RenamePending(k, v).key == RenamePending(k', v').key <==> SameContext(v, v'))
    ensures RenameRecovery(k, v).Move? && RenameRecovery(k', v').Move? ==>
      (RenameRecovery(k, v).key == RenameRecovery(k', v').key <==> SameContext(v, v'))
  {
    if RenameRecovery(k, v).Move? { RecoveryMovesAlike(k, v); }
    if RenameRecovery(k', v').Move? { RecoveryMovesAlike(k', v'); }
    if RenamePending(k, v).Move? && RenamePending(k', v').Move? { MovedContextsMeet(k, v, k', v'); }
  }

  /** Where a pending row goes. */
  lemma MovedContext(k: string, v: ContextRow)
    requires RenamePending(k, v).Move?
    ensures v.Decoded? && ParseLegacy(v.record.wallet).Some?
    ensures RenamePending(k, v).key == ContextKey(v.record.(wallet := Canonical(ParseLegacy(v.record.wallet).value)))
  {
  }

  /** A recovery row moves only where a pending row would. */
  lemma RecoveryMovesAlike(k: string, v: ContextRow)
    requires RenameRecovery(k, v).Move?
    ensures RenamePending(k, v) == RenameRecovery(k, v)
  {
  }

  lemma MovedContextsMeet(k: string, v: ContextRow, k': string, v': ContextRow)
    requires RenamePending(k, v).Move? && RenamePending(k', v').Move?
    ensures RenamePending(k, v).key == RenamePending(k', v').key <==> SameContext(v, v')
  {
    MovedContext(k, v);
    MovedContext(k', v');
    ContextKeysMeetExactly(v.record, ParseLegacy(v.record.wallet).value, v'.record, ParseLegacy(v'.record.wallet).value);
  }

  predicate SameContext(v: ContextRow, v': ContextRow) {
    && v.Decoded? && v'.Decoded?
    && v.record.chainId == v'.record.chainId && v.record.commitment == v'.record.commitment
    && ParseLegacy(v.record.wallet) == ParseLegacy(v'.record.wallet)
  }

  function Composite(walletId: string, chain: string, contract: string): string {
    walletId + SEPARATOR + chain + SEPARATOR + contract
  }

  lemma CompositeParses(walletId: string, chain: string, contract: string)
    requires walletId != "" && PipeFree(chain) && ParseU64(chain).Some? && PipeFree(contract) && ParseContract(contract).Some?
    ensures ParseLegacy(Composite(walletId, chain, contract))
         == Some(Legacy(walletId, ParseU64(chain).value, ParseContract(contract).value))
    ensures RenameMeta(Composite(walletId, chain, contract), []).Move?
  {
    RSplitOfLastField(walletId, chain);
    RSplitOfLastField(walletId + SEPARATOR + chain, contract);
    assert Composite(walletId, chain, contract)[|walletId|] == '|';
  }

  lemma SignIsSkipped()
    ensures ParseU64("1") == ParseU64("+1") == Some(1)
  {
    assert "1"[1..] == "" && "+1"[1..] == "1";
  }

  /** Composite keys are not unique: two spellings of one chain number meet, and a table
      that holds both is refused. */
  lemma SpellingsConflict(table: map<string, Bytes>, walletId: string, contract: string)
    requires walletId != "" && PipeFree(contract) && ParseContract(contract).Some?
    requires Composite(walletId, "1", contract) in table && Composite(walletId, "+1", contract) in table
    ensures !NoConflict(table, RenameMeta)
  {
    var k, k' := Composite(walletId, "1", contract), Composite(walletId, "+1", contract);
    SignIsSkipped();
    CompositeParses(walletId, "1", contract);
    CompositeParses(walletId, "+1", contract);
    assert |k| != |k'|;
    SharedTargetConflicts(table, k, k');
  }

  lemma SharedTargetConflicts(table: map<string, Bytes>, k: string, k': string)
    requires k in table && k' in table && k != k'
    requires RenameMeta(k, table[k]).Move? && RenameMeta(k', table[k']).Move?
    requires RenameMeta(k, table[k]).key == RenameMeta(k', table[k']).key
    ensures !NoConflict(table, RenameMeta)
  {
  }

  // ---- What a migration conserves ----

  /** Renaming is injective on the rows of a table that passed the preflight. */
  lemma RenamingIsInjective<V>(table: map<string, V>, rename: (string, V) -> Rename<V>, k: string, k': string)
    requires Parses(table, rename) && NoConflict(table, rename)
    requires k in table && k' in table && k != k'
    ensures TargetOf(rename, k, table[k]).0 != TargetOf(rename, k', table[k']).0
  {
  }

  lemma {:induction false} ImageCardinality(keys: set<string>, f: string -> string)
    requires forall k, k' :: k in keys && k' in keys && k != k' ==> f(k) != f(k')
    ensures |set k | k in keys :: f(k)| == |keys|
    decreases |keys|
  {
    if keys != {} {
      var k :| k in keys;
      var rest := keys - {k};
      ImageCardinality(rest, f);
      var image := set x | x in rest :: f(x);
      assert f(k) !in image;
      assert (set x | x in keys :: f(x)) == image + {f(k)};
    }
  }

  /** No row is lost and none appears. */
  lemma MigrationKeepsCount<V>(before: map<string, V>, rename: (string, V) -> Rename<V>, after: map<string, V>)
    requires Parses(before, rename) && NoConflict(before, rename) && Renamed(before, rename, after)
    ensures |after| == |before|
  {
    var f := (k: string) => if k in before then TargetOf(rename, k, before[k]).0 else k;
    forall k, k' | k in before.Keys && k' in before.Keys && k != k' ensures f(k) != f(k') {
      RenamingIsInjective(before, rename, k, k');
    }
    ImageCardinality(before.Keys, f);
    assert after.Keys == set k | k in before.Keys :: f(k) by {
      forall t | t in after.Keys ensures t in set k | k in before.Keys :: f(k) {
        var k :| k in before && TargetOf(rename, k, before[k]).0 == t;
        assert f(k) == t;
      }
    }
  }

  /** A rule is settled when what it writes is left alone by a second run. */
  ghost predicate Settles<V(!new)>(rename: (string, V) -> Rename<V>) {
    forall k, v :: rename(k, v).Move? ==> rename(rename(k, v).key, rename(k, v).value).Keep?
  }

  /** After a migration every row is kept by a second one, which is then a no-op. */
  lemma RerunKeepsEveryRow<V(!new)>(before: map<string, V>, rename: (string, V) -> Rename<V>, after: map<string, V>, t: string)
    requires Parses(before, rename) && Settles(rename) && Renamed(before, rename, after) && t in after
    ensures rename(t, after[t]).Keep?
  {
    var k :| k in before && TargetOf(rename, k, before[k]).0 == t;
    assert !rename(k, before[k]).Invalid?;
  }

  lemma MetaSettles()
    ensures Settles(RenameMeta)
  {
    forall k, v | RenameMeta(k, v).Move? ensures RenameMeta(RenameMeta(k, v).key, RenameMeta(k, v).value).Keep? {
      WalletPipeFree(Canonical(ParseLegacy(k).value));
    }
  }

  lemma UtxoSettles()
    ensures Settles(RenameUtxo)
  {
    forall k, v | RenameUtxo(k, v).Move? ensures RenameUtxo(RenameUtxo(k, v).key, RenameUtxo(k, v).value).Keep? {
      var (wallet, utxoId) := RSplitOnce(k).value;
      var key := Canonical(ParseLegacy(wallet).value);
      WalletPipeFree(key);
      RSplitOfLastField(key, utxoId);
    }
  }

  lemma PendingSettles()
    ensures Settles(RenamePending)
  {
    forall k, v | RenamePending(k, v).Move?
      ensures RenamePending(RenamePending(k, v).key, RenamePending(k, v).value).Keep?
    {
      WalletPipeFree(Canonical(ParseLegacy(v.record.wallet).value));
    }
  }

  lemma RecoverySettles()
    ensures Settles(RenameRecovery)
  {
    forall k, v | RenameRecovery(k, v).Move?
      ensures RenameRecovery(RenameRecovery(k, v).key, RenameRecovery(k, v).value).Keep?
    {
      WalletPipeFree(Canonical(ParseLegacy(v.record.wallet).value));
    }
  }

  datatype LegacyTables = LegacyTables(
    metas: map<string, Bytes>, utxos: map<string, Bytes>,
    pending: map<string, ContextRow>, recovery: map<string, ContextRow>)

  ghost predicate Migratable(t: LegacyTables) {
    && Parses(t.metas, RenameMeta) && NoConflict(t.metas, RenameMeta)
    && Parses(t.utxos, RenameUtxo) && NoConflict(t.utxos, RenameUtxo)
    && Parses(t.pending, RenamePending) && NoConflict(t.pending, RenamePending)
    && Parses(t.recovery, RenameRecovery) && NoConflict(t.recovery, RenameRecovery)
  }

  ghost predicate Migrated(t: LegacyTables, t': LegacyTables) {
    && Renamed(t.metas, RenameMeta, t'.metas)
    && Renamed(t.utxos, RenameUtxo, t'.utxos)
    && Renamed(t.pending, RenamePending, t'.pending)
    && Renamed(t.recovery, RenameRecovery, t'.recovery)
  }

  lemma KeptTableUnchanged<V(!new)>(before: map<string, V>, rename: (string, V) -> Rename<V>, mid: map<string, V>, after: map<string, V>)
    requires Parses(before, rename) && Settles(rename)
    requires Renamed(before, rename, mid) && Renamed(mid, rename, after)
    ensures Parses(mid, rename) && NoConflict(mid, rename) && after == mid
  {
    forall t | t in mid ensures rename(t, mid[t]).Keep? {
      RerunKeepsEveryRow(before, rename, mid, t);
    }
    forall t ensures t in after <==> t in mid {
      if t in mid { assert TargetOf(rename, t, mid[t]) == (t, mid[t]); }
    }
    forall t | t in mid ensures after[t] == mid[t] {
      assert TargetOf(rename, t, mid[t]) == (t, mid[t]);
    }
  }

  /** Migrating twice is migrating once: the second run is accepted and changes nothing. */
  lemma RerunIsNoOp(t: LegacyTables, t': LegacyTables, t'': LegacyTables)
    requires Migratable(t) && Migrated(t, t') && Migrated(t', t'')
    ensures Migratable(t') && t'' == t'
  {
    MetaSettles();
    UtxoSettles();
    PendingSettles();
    RecoverySettles();
    KeptTableUnchanged(t.metas, RenameMeta, t'.metas, t''.metas);
    KeptTableUnchanged(t.utxos, RenameUtxo, t'.utxos, t''.utxos);
    KeptTableUnchanged(t.pending, RenamePending, t'.pending, t''.pending);
    KeptTableUnchanged(t.recovery, RenameRecovery, t'.recovery, t''.recovery);
  }

  /** A row already under a canonical key is left alone exactly when its UTXO id has
      no separator; with one, the migration mistakes it for a composite key. */
  lemma CanonicalUtxoKeptExactly(w: WalletKey, utxoId: string, value: Bytes)
    ensures RenameUtxo(w + SEPARATOR + utxoId, value).Keep? <==> PipeFree(utxoId)
  {
    WalletPipeFree(w);
    var key := w + SEPARATOR + utxoId;
    if PipeFree(utxoId) {
      RSplitOfLastField(w, utxoId);
    } else {
      var (left, right) := RSplitOnce(utxoId).value;
      RSplitOfLastField(w + SEPARATOR + left, right);
      assert key == w + SEPARATOR + left + SEPARATOR + right;
      assert (w + SEPARATOR + left)[|w|] == '|';
    }
  }
}
