/** The values the consensus modules share: identifiers, certificates and blocks.

    Hashes are numbered so that a block's hash is larger than every hash the block names:
    a hash can only be named once it exists, and hashes do not collide. */
module HotStuff {
  datatype Option<+T> = None | Some(value: T)

  type ID = nat
  type View = nat
  type Hash = nat

  const NO_HASH: Hash := 0 // the zero hash, which names no block
  const GENESIS_HASH: Hash := 1

  datatype QuorumCert = QuorumCert(signers: set<ID>, view: View, hash: Hash)

  datatype Block = Block(hash: Hash, parent: Hash, cert: QuorumCert, view: View, proposer: ID, cmd: string)

  const GENESIS: Block := Block(GENESIS_HASH, NO_HASH, QuorumCert({}, 0, NO_HASH), 0, 0, "")

  /** A signature of replica `id` on the block with hash `hash`. */
  datatype Vote = Vote(id: ID, hash: Hash)

  /** The blocks that can be found, each under its own hash. */
  type Chain = map<Hash, Block>

  /** A block only names hashes that were computed before its own. */
  predicate HashLinked(b: Block) {
    b.parent < b.hash && b.cert.hash < b.hash
  }

  predicate WellHashed(chain: Chain) {
    && NO_HASH !in chain
    && GENESIS_HASH in chain
    && chain[GENESIS_HASH] == GENESIS
    && forall h :: h in chain ==> chain[h].hash == h && HashLinked(chain[h])
  }

  function Get(chain: Chain, h: Hash): Option<Block> {
    if h in chain then Some(chain[h]) else None
  }

  /** What a CommitRule leaves as the lock, and the block it returns, if any. */
  datatype Ruling = Ruling(locked: Block, decided: Option<Block>)

  /** The shape that `Propose` gives a block: its parent is the block its certificate names. */
  predicate Shaped(b: Block) {
    b.parent == b.cert.hash
  }
}
