/** A ledger entry and the content digest it computes over its own attributes. */
module Blocks {

  datatype Option<T> = None | Some(value: T)

  /** The attributes a block carries at one moment, as its serialisation sees
      them. `nonce` and `hash` are `None` while the attribute has not been set,
      so they take part in the digest only once they exist. */
  datatype Fields<Tx> = Fields(
    index: int,
    transactions: seq<Tx>,
    timestamp: real,
    previousHash: string,
    nonce: Option<nat>,
    hash: Option<string>)

  /** One block. The four constructor arguments never change; `nonce` is the
      proof-of-work search variable and `hash` is fixed when the block joins
      a chain. */
  class Block<Tx> {
    const index: int
    const transactions: seq<Tx>
    const timestamp: real
    const previousHash: string
    var nonce: Option<nat>
    var hash: Option<string>

    constructor (index: int, transactions: seq<Tx>, timestamp: real, previousHash: string)
      ensures Attributes() == Fields(index, transactions, timestamp, previousHash, None, None)
    {
      this.index := index;
      this.transactions := transactions;
      this.timestamp := timestamp;
      this.previousHash := previousHash;
      nonce := None;
      hash := None;
    }

    /** Every attribute currently set on the block, the stored hash included once it is set. */
    function Attributes(): Fields<Tx>
      reads this
    {
      Fields(index, transactions, timestamp, previousHash, nonce, hash)
    }

    /** The digest of the block's current attributes; `digest` stands for the
        serialise-then-hash pipeline, which is deterministic. */
    function ComputeHash(digest: Fields<Tx> -> string): string
      reads this
    {
      digest(Attributes())
    }

    /** The digest of the block's attributes other than the stored hash: what
        `ComputeHash` returned while the hash was still unset. */
    function ContentHash(digest: Fields<Tx> -> string): string
      reads this
    {
      digest(Attributes().(hash := None))
    }

    /** The stored hash is set and is the digest of the other attributes. */
    predicate HashRecomputes(digest: Fields<Tx> -> string)
      reads this
    {
      hash == Some(ContentHash(digest))
    }
  }

  /** Recomputing a block's digest gives the same value as long as the block
      is not mutated in between. */
  twostate lemma ComputeHashStable<Tx>(block: Block<Tx>, digest: Fields<Tx> -> string)
    requires unchanged(block)
    ensures block.ComputeHash(digest) == old(block.ComputeHash(digest))
  {
  }
}
