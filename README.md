# Hash-chained ledger with proof-of-work admission

A Dafny model of `main.py`, a minimal single-process blockchain. It has two
classes:

- A `Block` holds an index, an ordered list of transactions, a timestamp and
  the previous block's hash. It gains a `nonce` during the proof-of-work search
  and a `hash` when it is appended. `computeHash` digests whatever attributes
  the block has at that moment.
- A `BlockChain` owns the list of blocks (`chain`) and a buffer of pending
  transactions (`unconfirmedTransactions`). It creates the genesis block,
  searches nonces linearly, validates proofs, appends blocks when the
  linkage and proof checks pass, and mines the buffer into a new block.

The model keeps the source's form:

- `Block` is a class. Its four constructor arguments are constants. Its
  `nonce` and `hash` are mutable and `None` until first set.
- `BlockChain` is a class with sequence fields.
- `ProofOfWork` is a `while` loop that mutates the block's nonce.
- `AddBlock`, `AddNewTransaction` and `Mine` reassign the sequence fields.

The digest (SHA-256 over `json.dumps(block.__dict__, sort_keys=True)`) is a
deterministic function `digest: Fields<Tx> -> string` that the chain receives
at construction. `Fields` records exactly the attributes the serialisation
sees: index, transactions, timestamp, previous hash, and the nonce and hash
when they are set.

Below, the "tip" is the last block of the chain.

`BlockChain.Valid()` is the class invariant that every state-changing method
keeps:

- the chain is never empty;
- the genesis block comes first, with index 0, no transactions and previous hash `"0"`;
- every block has a stored hash;
- every block after the genesis has a hash that meets the difficulty;
- every block's `previousHash` is its predecessor's stored hash.

Two further invariants hold on every chain that `Mine` builds. `AddBlock`
alone cannot promise them, because the source does not check what they need:

- `HashesRecompute()`: every stored hash is the digest of the block's other attributes.
- `IndicesConsecutive()`: each index is one more than the previous index.

## Deviations from the source

`main.py` cannot run as written. The model follows the evident intent:

- main.py:40 assigns `difficulty = 2` to a local variable. Lines 76 and 107
  read `BlockChain.difficulty`, an attribute that does not exist. The model has
  one shared constant, `Ledger.Difficulty = 2`, which both the search and the
  validity check read.
- main.py:122 returns `false`, which is an undefined name in Python. The model
  returns a separate outcome, `NothingToMine`, alongside `Mined(index)`.
- main.py:94 calls `BlockChain.isValidProof(block, proof)` on the class, so the
  arguments shift by one and one is missing. The model makes the intended call,
  `IsValidProof(block, proof)` on the chain itself.
- main.py:131 ignores the result of `addBlock`, and main.py:132 then clears the
  buffer whatever happened. The model does not assume the append succeeds:
  `MinedCandidateAdmitted` proves that a mined candidate always passes both
  checks. `Mine` asserts the success before it clears the buffer. There is
  therefore no "append rejected" outcome.

## Model

| member | source | states |
|---|---|---|
| Blocks.Block.constructor | main.py:9-21 | A new block has the given index, transactions, timestamp and previous hash, and neither a nonce nor a hash. |
| Blocks.ComputeHashStable | main.py:24-30 | Two digest computations of a block with no mutation in between return the same value. |
| Ledger.Zeros | main.py:76 | `"0" * n` is a string of length n made only of '0' characters. |
| Ledger.StartsWith | main.py:76 | `startswith` holds exactly when the prefix is no longer than the string and matches it character by character. |
| Ledger.FirstValidNonce | main.py:73-79 | Searching upward from a nonce, one by one, returns the first nonce whose digest meets the difficulty; every nonce passed over fails. |
| Ledger.LeastNonce | main.py:73-79 | The nonce the search settles on meets the difficulty, and every smaller nonce fails it. |
| Ledger.LeastNonceUnique | main.py:73-79 | A nonce that works, with no smaller nonce working, is the one the search settles on. |
| Ledger.MinedCandidateAdmitted | main.py:124-131 | A candidate built on the tip's hash, with the nonce and hash from the search, passes both the linkage check and the proof check of `addBlock`. |
| Ledger.BlockChain.constructor | main.py:38-43 | A new chain has an empty buffer and exactly one block, the genesis block, and satisfies all three invariants. |
| Ledger.BlockChain.CreateGenesisBlock | main.py:46-55 | The genesis block has index 0, no transactions, previous hash "0", no nonce, and its digest as its stored hash; it is not held to the difficulty. |
| Ledger.BlockChain.LastBlock | main.py:58-64 | On a valid chain the last block always exists, is the final element, and has a stored hash. |
| Ledger.BlockChain.ProofOfWork | main.py:67-79 | The search sets the block's nonce to the least nonce whose digest meets the difficulty, changes nothing else, and returns that digest. |
| Ledger.BlockChain.IsValidProof | main.py:102-108 | A hash is accepted exactly when it starts with `Difficulty` '0' characters and is the digest of the block's current attributes; a zero-prefixed hash that is not the digest is refused. |
| Ledger.BlockChain.AddBlock | main.py:82-99 | The block is appended exactly when its previous hash is the tip's hash and the proof is valid. On success the block becomes the new last element with `hash = proof`, and the chain grows by one. On failure the chain and the block's hash are unchanged. Earlier blocks are never touched, and the linkage invariant is kept. |
| Ledger.BlockChain.AddNewTransaction | main.py:111-112 | The transaction is appended to the end of the buffer, and nothing else changes. |
| Ledger.BlockChain.Mine | main.py:115-133 | On an empty buffer, nothing changes and the result is `NothingToMine`. Otherwise the chain gains exactly one fresh block and the buffer is emptied. The new block has index tip+1, the buffered transactions, the tip's hash, the least working nonce, and that digest as its hash. The result is the new block's index. All three invariants are kept. |
| Ledger.BlockChain.IndexIsPosition | main.py:126 | On a chain whose indices are consecutive from the genesis, each block's index equals its position. |

## Left out

- SHA-256, hex encoding and `json.dumps` (main.py:1-2, main.py:29-30) are one
  deterministic function-valued parameter, `digest`. No property of SHA-256 is
  assumed, not even collision resistance.
- `time.time()` (main.py:53, main.py:128) becomes the `now` parameter. Python
  floats are modelled as `real`.
- A transaction that JSON cannot serialise would raise in `computeHash`. The
  model treats transactions as opaque values of a type parameter.
- Ledger.BlockChain.ProofOfWork: requires that some nonce meets the difficulty
  (`Minable`). Without one the source loops forever; the model's loop must be
  shown to end, so it counts down to a nonce known to work.
- Ledger.BlockChain.Mine: requires `Minable` for the candidate it will build,
  for the same reason, when the buffer is not empty.
- Ledger.BlockChain.AddBlock: requires that the candidate is not already in the
  chain. Python would re-append such a block and overwrite its stored hash.
  The model excludes that aliasing.
- Ledger.BlockChain.AddBlock: keeps `HashesRecompute` only when the candidate
  had no stored hash. Python's digest includes a hash attribute once it exists
  (main.py:29), so the stored hash equals the digest taken at validation time,
  before main.py:97 sets it. `Block.ContentHash` is that digest, with the
  stored hash excluded.
- Ledger.BlockChain.AddBlock: keeps `IndicesConsecutive` only when the
  candidate's index follows the tip's. The source never checks the index at
  append time; only `mine` builds a correct one.
- Ledger.BlockChain.CreateGenesisBlock: requires an empty chain. In the source
  it is only called from the constructor. A later call would append a second
  genesis block and break the linkage.
- The list aliasing at main.py:127 is not modelled. There, the new block shares
  the buffer's list object, and the buffer is then rebound to a fresh list. The
  model uses sequence values, which behave the same way.
- Concurrency and an atomic snapshot-and-clear of the buffer are not modelled.
  The source is single-threaded.
