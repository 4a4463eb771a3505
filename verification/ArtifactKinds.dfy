/** The kinds of indexed artifacts, shared by stream plans and chunk files. */
module ArtifactKinds {

  datatype Dataset = WalletScan | Commitments | MerkleCheckpoint | PublicTxid

  datatype RangeKind = Block | TxidIndex | TreePosition | PoiEventIndex
}
