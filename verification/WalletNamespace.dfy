/** Deleting a wallet's private namespace: six tables and a marker, each cleared by
    key or by prefix scan. */
module WalletNamespace {
  import opened Common
  import opened KeyRange
  import opened KeyText

  /** Wallet cache keys are non-empty lower-case hexadecimal text of even length. */
  type WalletKey = s: string | IsWalletKey(s) witness "00"

  predicate IsWalletKey(s: string) {
    s != "" && |s| % 2 == 0 && forall i :: 0 <= i < |s| ==> '0' <= s[i] <= '9' || 'a' <= s[i] <= 'f'
  }

  datatype Namespace = Namespace(chainId: U64, wallet: WalletKey)

  type Table = map<string, Bytes>

  datatype Rows = Rows(
    markers: Table, utxos: Table, metas: Table, actors: Table,
    pendingV1: Table, pendingV2: Table, recoveryV1: Table, recoveryV2: Table, candidates: Table)

  const MARKER_PREFIX: string := "wallet_private_canonicalization_version_v1:"

  function ChainWallet(chainId: U64, wallet: string): string {
    Decimal(chainId) + SEPARATOR + wallet
  }

  function ChainWalletPrefix(chainId: U64, wallet: string): string {
    ChainWallet(chainId, wallet) + SEPARATOR
  }

  /** Splits at the last separator. */
  function RSplitOnce(s: string): (r: Option<(string, string)>)
    ensures r.None? <==> PipeFree(s)
    ensures r.Some? ==> PipeFree(r.value.1) && s == r.value.0 + SEPARATOR + r.value.1
  {
    if s == "" then None
    else if s[|s| - 1] == '|' then Some((s[..|s| - 1], ""))
    else
      var n := |s| - 1;
      match RSplitOnce(s[..n])
      case None => None
      case Some((left, right)) =>
        assert s == s[..n] + [s[n]];
        Some((left, right + [s[n]]))
  }

  /** The split gives back the last field. */
  lemma {:induction false} RSplitOfLastField(stem: string, field: string)
    requires PipeFree(field)
    ensures RSplitOnce(stem + SEPARATOR + field) == Some((stem, field))
  {
    var s := stem + SEPARATOR + field;
    var n := |s| - 1;
    if field == "" {
      assert s[..n] == stem;
    } else {
      var shorter := field[..|field| - 1];
      RSplitOfLastField(stem, shorter);
      assert s[..n] == stem + SEPARATOR + shorter;
      assert s[n] == field[|field| - 1] != '|';
      assert shorter + [s[n]] == field;
    }
  }

  predicate InNamespace(ns: Namespace, key: string) {
    match RSplitOnce(key)
    case Some((left, _)) => left == ChainWallet(ns.chainId, ns.wallet)
    case None => false
  }

  // ---- The rows the store keeps for a namespace ----

  /** A row, named by what it is about. Version 1 rows may belong to wallets whose
      historical identifiers contain separators. */
  datatype RowName =
    | Marker(ns: Namespace)
    | Utxo(wallet: WalletKey, utxoId: string)
    | Meta(wallet: WalletKey)
    | Actor(ns: Namespace)
    | PendingV1(chainId: U64, walletText: string, commitment: Bytes)
    | PendingV2(ns: Namespace, rowId: Bytes)
    | RecoveryV1(chainId: U64, walletText: string, commitment: Bytes)
    | RecoveryV2(ns: Namespace, rowId: Bytes)
    | Candidate(ns: Namespace, rowId: Bytes)

  function KeyOf(name: RowName): string {
    match name
    case Marker(ns) => MARKER_PREFIX + ChainWallet(ns.chainId, ns.wallet)
    case Utxo(wallet, utxoId) => wallet + SEPARATOR + utxoId
    case Meta(wallet) => wallet
    case Actor(ns) => ChainWallet(ns.chainId, ns.wallet)
    case PendingV1(chainId, wallet, c) => ChainWalletPrefix(chainId, wallet) + Hex(c)
    case PendingV2(ns, rowId) => ChainWalletPrefix(ns.chainId, ns.wallet) + Hex(rowId)
    case RecoveryV1(chainId, wallet, c) => ChainWalletPrefix(chainId, wallet) + Hex(c)
    case RecoveryV2(ns, rowId) => ChainWalletPrefix(ns.chainId, ns.wallet) + Hex(rowId)
    case Candidate(ns, rowId) => ChainWalletPrefix(ns.chainId, ns.wallet) + Hex(rowId)
  }

  function TableOf(rows: Rows, name: RowName): Table {
    match name
    case Marker(_) => rows.markers
    case Utxo(_, _) => rows.utxos
    case Meta(_) => rows.metas
    case Actor(_) => rows.actors
    case PendingV1(_, _, _) => rows.pendingV1
    case PendingV2(_, _) => rows.pendingV2
    case RecoveryV1(_, _, _) => rows.recoveryV1
    case RecoveryV2(_, _) => rows.recoveryV2
    case Candidate(_, _) => rows.candidates
  }

  /** UTXO and metadata rows are keyed by wallet alone; the others by chain and wallet. */
  predicate Belongs(name: RowName, ns: Namespace) {
    match name
    case Utxo(wallet, _) => wallet == ns.wallet
    case Meta(wallet) => wallet == ns.wallet
    case PendingV1(chainId, wallet, _) => chainId == ns.chainId && wallet == ns.wallet
    case RecoveryV1(chainId, wallet, _) => chainId == ns.chainId && wallet == ns.wallet
    case _ => name.ns == ns
  }

  function Stored(rows: Rows, name: RowName): Option<Bytes> {
    if KeyOf(name) in TableOf(rows, name) then Some(TableOf(rows, name)[KeyOf(name)]) else None
  }

  function Matcher(ns: Namespace): string -> bool {
    key => InNamespace(ns, key)
  }

  function WithoutExact(table: Table, ns: Namespace): Table {
    WithoutMatching(table, ChainWalletPrefix(ns.chainId, ns.wallet), Matcher(ns))
  }

  function AfterDelete(rows: Rows, ns: Namespace): Rows {
    var prefix := ChainWalletPrefix(ns.chainId, ns.wallet);
    Rows(
      rows.markers - {MARKER_PREFIX + ChainWallet(ns.chainId, ns.wallet)},
      WithoutPrefix(rows.utxos, ns.wallet + SEPARATOR),
      rows.metas - {ns.wallet},
      rows.actors - {ChainWallet(ns.chainId, ns.wallet)},
      WithoutExact(rows.pendingV1, ns), WithoutPrefix(rows.pendingV2, prefix),
      WithoutExact(rows.recoveryV1, ns), WithoutPrefix(rows.recoveryV2, prefix),
      WithoutPrefix(rows.candidates, prefix))
  }

  // ---- Keys determine namespaces ----

  lemma WalletPipeFree(w: WalletKey)
    ensures PipeFree(w)
  {
  }

  lemma ChainWalletUnique(c: U64, w: string, rest: string, c': U64, w': string, rest': string)
    requires PipeFree(w) && PipeFree(w')
    requires ChainWalletPrefix(c, w) + rest <= ChainWalletPrefix(c', w') + rest'
    ensures c == c' && w == w'
  {
    DecimalPipeFree(c);
    DecimalPipeFree(c');
    var a, b := w + SEPARATOR + rest, w' + SEPARATOR + rest';
    assert ChainWalletPrefix(c, w) + rest == Decimal(c) + SEPARATOR + a;
    assert ChainWalletPrefix(c', w') + rest' == Decimal(c') + SEPARATOR + b;
    FirstFieldUnique(Decimal(c), a, Decimal(c'), b);
    FirstFieldUnique(w, rest, w', rest');
    DecimalInjective(c, c');
  }

  lemma ChainWalletTextUnique(c: U64, w: string, c': U64, w': string)
    requires ChainWallet(c, w) == ChainWallet(c', w')
    ensures c == c' && w == w'
  {
    DecimalPipeFree(c);
    DecimalPipeFree(c');
    FirstFieldUnique(Decimal(c), w, Decimal(c'), w');
    FirstFieldUnique(Decimal(c'), w', Decimal(c), w);
    DecimalInjective(c, c');
    assert w <= w' && w' <= w;
  }

  /** A version 1 row is inside the namespace exactly when its chain and wallet are. */
  lemma V1RowsExactly(ns: Namespace, c: U64, w: string, commitment: Bytes)
    ensures var key := ChainWalletPrefix(c, w) + Hex(commitment);
            (ChainWalletPrefix(ns.chainId, ns.wallet) <= key && InNamespace(ns, key)) <==>
            (c == ns.chainId && w == ns.wallet)
  {
    var key := ChainWalletPrefix(c, w) + Hex(commitment);
    HexPipeFree(commitment);
    RSplitOfLastField(ChainWallet(c, w), Hex(commitment));
    assert key == ChainWallet(c, w) + SEPARATOR + Hex(commitment);
    if ChainWallet(c, w) == ChainWallet(ns.chainId, ns.wallet) {
      ChainWalletTextUnique(c, w, ns.chainId, ns.wallet);
    }
  }

  lemma V2RowsExactly(ns: Namespace, other: Namespace, rowId: Bytes)
    ensures ChainWalletPrefix(ns.chainId, ns.wallet) <= ChainWalletPrefix(other.chainId, other.wallet) + Hex(rowId)
       <==> other == ns
  {
    WalletPipeFree(ns.wallet);
    WalletPipeFree(other.wallet);
    var prefix := ChainWalletPrefix(ns.chainId, ns.wallet);
    if prefix <= ChainWalletPrefix(other.chainId, other.wallet) + Hex(rowId) {
      assert prefix + "" == prefix;
      ChainWalletUnique(ns.chainId, ns.wallet, "", other.chainId, other.wallet, Hex(rowId));
    }
  }

  lemma UtxoRowsExactly(w: WalletKey, w': WalletKey, utxoId: string)
    ensures w + SEPARATOR <= w' + SEPARATOR + utxoId <==> w == w'
  {
    WalletPipeFree(w);
    WalletPipeFree(w');
    if w + SEPARATOR <= w' + SEPARATOR + utxoId {
      assert w + SEPARATOR + "" == w + SEPARATOR;
      FirstFieldUnique(w, "", w', utxoId);
    }
  }

  lemma ScannedRowExactly(table: Table, ns: Namespace, other: Namespace, rowId: Bytes)
    ensures var prefix := ChainWalletPrefix(ns.chainId, ns.wallet);
            var key := ChainWalletPrefix(other.chainId, other.wallet) + Hex(rowId);
            var kept := WithoutPrefix(table, prefix);
            (key in kept <==> key in table && other != ns) && (key in kept ==> kept[key] == table[key])
  {
    V2RowsExactly(ns, other, rowId);
  }

  lemma MatchedRowExactly(table: Table, ns: Namespace, c: U64, w: string, commitment: Bytes)
    ensures var key := ChainWalletPrefix(c, w) + Hex(commitment);
            var kept := WithoutExact(table, ns);
            && (key in kept <==> key in table && !(c == ns.chainId && w == ns.wallet))
            && (key in kept ==> kept[key] == table[key])
  {
    V1RowsExactly(ns, c, w, commitment);
  }

  lemma UtxoRowExactly(table: Table, w: WalletKey, w': WalletKey, utxoId: string)
    ensures var key := w' + SEPARATOR + utxoId;
            var kept := WithoutPrefix(table, w + SEPARATOR);
            (key in kept <==> key in table && w != w') && (key in kept ==> kept[key] == table[key])
  {
    UtxoRowsExactly(w, w', utxoId);
  }

  lemma NamespaceKeyExactly(stem: string, ns: Namespace, other: Namespace)
    ensures stem + ChainWallet(ns.chainId, ns.wallet) == stem + ChainWallet(other.chainId, other.wallet) <==> ns == other
  {
    var a, b := ChainWallet(ns.chainId, ns.wallet), ChainWallet(other.chainId, other.wallet);
    if stem + a == stem + b {
      assert a == (stem + a)[|stem|..] == (stem + b)[|stem|..] == b;
      ChainWalletTextUnique(ns.chainId, ns.wallet, other.chainId, other.wallet);
    }
  }

  /** Deletion is exact: it removes every row of the namespace, and no other row of
      any wallet or chain changes. */
  lemma DeletionIsExact(rows: Rows, ns: Namespace, name: RowName)
    ensures Stored(AfterDelete(rows, ns), name) == if Belongs(name, ns) then None else Stored(rows, name)
  {
    match name
    case Marker(other) => NamespaceKeyExactly(MARKER_PREFIX, ns, other);
    case Utxo(w, utxoId) => UtxoRowExactly(rows.utxos, ns.wallet, w, utxoId);
    case Meta(_) =>
    case Actor(other) =>
      NamespaceKeyExactly("", ns, other);
      assert "" + ChainWallet(ns.chainId, ns.wallet) == ChainWallet(ns.chainId, ns.wallet);
      assert "" + ChainWallet(other.chainId, other.wallet) == ChainWallet(other.chainId, other.wallet);
    case PendingV1(c, w, commitment) => MatchedRowExactly(rows.pendingV1, ns, c, w, commitment);
    case RecoveryV1(c, w, commitment) => MatchedRowExactly(rows.recoveryV1, ns, c, w, commitment);
    case PendingV2(other, rowId) => ScannedRowExactly(rows.pendingV2, ns, other, rowId);
    case RecoveryV2(other, rowId) => ScannedRowExactly(rows.recoveryV2, ns, other, rowId);
    case Candidate(other, rowId) => ScannedRowExactly(rows.candidates, ns, other, rowId);
  }

  datatype Report = Report(utxo: nat, meta: nat, actor: nat, pending: nat, recovery: nat, candidate: nat)

  const NOTHING_REMOVED: Report := Report(0, 0, 0, 0, 0, 0)

  /** The report gives the rows that went, kind by kind. */
  predicate Counts(r: Report, before: Rows, after: Rows) {
    && r.utxo == |before.utxos| - |after.utxos|
    && r.meta == |before.metas| - |after.metas|
    && r.actor == |before.actors| - |after.actors|
    && r.pending == |before.pendingV1| - |after.pendingV1| + |before.pendingV2| - |after.pendingV2|
    && r.recovery == |before.recoveryV1| - |after.recoveryV1| + |before.recoveryV2| - |after.recoveryV2|
    && r.candidate == |before.candidates| - |after.candidates|
  }

  class WalletStore {
    var rows: Rows

    constructor (rows: Rows)
      ensures this.rows == rows
    {
      this.rows := rows;
    }

    /** Deletes the namespace and reports how many rows went; running it again
        reports nothing, because nothing is left to remove. */
    method DeleteNamespace(ns: Namespace) returns (report: Report)
      modifies this
      ensures rows == AfterDelete(old(rows), ns)
      ensures Counts(report, old(rows), rows)
      ensures report == NOTHING_REMOVED <==> rows == old(rows).(markers := rows.markers)
    {
      var prefix := ChainWalletPrefix(ns.chainId, ns.wallet);
      var actorKey := ChainWallet(ns.chainId, ns.wallet);
      var markers, _ := RemoveKey(rows.markers, MARKER_PREFIX + actorKey);
      var utxos, utxoCount := RemovePrefix(rows.utxos, ns.wallet + SEPARATOR);
      var metas, metaCount := RemoveKey(rows.metas, ns.wallet);
      var actors, actorCount := RemoveKey(rows.actors, actorKey);
      var pendingV1, p1 := RemovePrefixMatching(rows.pendingV1, prefix, Matcher(ns));
      var pendingV2, p2 := RemovePrefix(rows.pendingV2, prefix);
      var recoveryV1, r1 := RemovePrefixMatching(rows.recoveryV1, prefix, Matcher(ns));
      var recoveryV2, r2 := RemovePrefix(rows.recoveryV2, prefix);
      var candidates, candidateCount := RemovePrefix(rows.candidates, prefix);
      rows := Rows(markers, utxos, metas, actors,
                   pendingV1, pendingV2, recoveryV1, recoveryV2, candidates);
      report := Report(utxoCount, metaCount, actorCount, p1 + p2, r1 + r2, candidateCount);
    }
  }

  /** Deleting twice is deleting once, so a second report is empty. */
  lemma DeletionIsIdempotent(rows: Rows, ns: Namespace)
    ensures AfterDelete(AfterDelete(rows, ns), ns) == AfterDelete(rows, ns)
  {
    var once := AfterDelete(rows, ns);
    assert once.markers - {MARKER_PREFIX + ChainWallet(ns.chainId, ns.wallet)} == once.markers;
    assert once.metas - {ns.wallet} == once.metas;
    assert once.actors - {ChainWallet(ns.chainId, ns.wallet)} == once.actors;
  }
}
