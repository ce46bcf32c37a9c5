/** A hash-chained ledger that admits a block only with a proof of work. */
module Ledger {
  import opened Blocks

  /** Number of leading '0' characters a mined block's hash must have. One
      shared value, read by both the search and the validity check. */
  const Difficulty: nat := 2

  /** The string of `n` '0' characters. */
  function Zeros(n: nat): (z: string)
    ensures |z| == n
    ensures forall i :: 0 <= i < n ==> z[i] == '0'
  {
    if n == 0 then "" else "0" + Zeros(n - 1)
  }

  /** `s` begins with `prefix`. */
  function StartsWith(s: string, prefix: string): (b: bool)
    ensures b <==> |prefix| <= |s| && forall i :: 0 <= i < |prefix| ==> s[i] == prefix[i]
  {
    prefix <= s
  }

  /** `h` begins with `Difficulty` zero characters. */
  predicate MeetsDifficulty(h: string) {
    StartsWith(h, Zeros(Difficulty))
  }

  function WithNonce<Tx>(f: Fields<Tx>, n: nat): Fields<Tx> {
    f.(nonce := Some(n))
  }

  /** Setting the nonce of a block with attributes `f` to `n` yields a hash that meets the difficulty. */
  predicate NonceWorks<Tx>(digest: Fields<Tx> -> string, f: Fields<Tx>, n: nat) {
    MeetsDifficulty(digest(WithNonce(f, n)))
  }

  /** Some nonce works for `f`: exactly when the linear search ends. */
  ghost predicate Minable<Tx>(digest: Fields<Tx> -> string, f: Fields<Tx>) {
    exists n: nat :: NonceWorks(digest, f, n)
  }

  /** The first working nonce at or after `from`, searched one by one; `bound`
      is a nonce known to work, which ends the search. */
  function FirstValidNonce<Tx>(digest: Fields<Tx> -> string, f: Fields<Tx>, from: nat, bound: nat): (n: nat)
    requires from <= bound && NonceWorks(digest, f, bound)
    ensures from <= n <= bound && NonceWorks(digest, f, n)
    ensures forall k: nat :: from <= k < n ==> !NonceWorks(digest, f, k)
    decreases bound - from
  {
    if NonceWorks(digest, f, from) then from else FirstValidNonce(digest, f, from + 1, bound)
  }

  /** The smallest working nonce: the one the proof-of-work search settles on. */
  ghost function LeastNonce<Tx>(digest: Fields<Tx> -> string, f: Fields<Tx>): (n: nat)
    requires Minable(digest, f)
    ensures NonceWorks(digest, f, n)
    ensures forall k: nat :: k < n ==> !NonceWorks(digest, f, k)
  {
    var w: nat :| NonceWorks(digest, f, w);
    FirstValidNonce(digest, f, 0, w)
  }

  /** A working nonce below which no nonce works is the one `LeastNonce` names. */
  lemma LeastNonceUnique<Tx>(digest: Fields<Tx> -> string, f: Fields<Tx>, n: nat)
    requires NonceWorks(digest, f, n)
    requires forall k: nat :: k < n ==> !NonceWorks(digest, f, k)
    ensures Minable(digest, f) && LeastNonce(digest, f) == n
  {
    var least := LeastNonce(digest, f);
    assert NonceWorks(digest, f, least);
  }

  /** The two checks a block with attributes `f` must pass, with `proof` as
      its claimed hash, to follow a tip whose hash is `tipHash`. */
  predicate Admits<Tx>(digest: Fields<Tx> -> string, tipHash: string, f: Fields<Tx>, proof: string) {
    f.previousHash == tipHash && MeetsDifficulty(proof) && proof == digest(f)
  }

  /** A candidate linked to the tip and given the nonce the search finds,
      with the hash the search returns, is always admitted. */
  lemma MinedCandidateAdmitted<Tx>(digest: Fields<Tx> -> string, tipHash: string, f: Fields<Tx>)
    requires Minable(digest, f) && f.previousHash == tipHash
    ensures var mined := WithNonce(f, LeastNonce(digest, f));
            Admits(digest, tipHash, mined, digest(mined))
  {
  }

  /** What a call to `Mine` reports. */
  datatype MineOutcome = Mined(index: int) | NothingToMine

  class BlockChain<Tx> {
    /** Serialise-then-hash, the digest every block's hash is taken with. */
    const digest: Fields<Tx> -> string
    var chain: seq<Block<Tx>>
    var unconfirmedTransactions: seq<Tx>

    /** The chain is never empty, starts with the genesis block, every block
        has a stored hash, every block after the genesis has a hash meeting
        the difficulty, and each block names its predecessor's hash. */
    ghost predicate Valid()
      reads this`chain, chain
    {
      && |chain| >= 1
      && chain[0].index == 0 && chain[0].transactions == [] && chain[0].previousHash == "0"
      && (forall i :: 0 <= i < |chain| ==> SealedAt(i))
      && (forall i :: 0 <= i < |chain| - 1 ==> LinkedAt(i))
    }

    /** Block `i` has a stored hash, which meets the difficulty unless `i` is the genesis. */
    ghost predicate SealedAt(i: int)
      reads this`chain, chain
    {
      0 <= i < |chain| && chain[i].hash.Some? && (i > 0 ==> MeetsDifficulty(chain[i].hash.value))
    }

    /** Block `i + 1` names the stored hash of block `i`. */
    ghost predicate LinkedAt(i: int)
      reads this`chain, chain
    {
      0 <= i < |chain| - 1 && chain[i].hash == Some(chain[i + 1].previousHash)
    }

    /** Every stored hash is the digest of the block's other attributes. */
    ghost predicate HashesRecompute()
      reads this`chain, chain
    {
      forall i :: 0 <= i < |chain| ==> chain[i].HashRecomputes(digest)
    }

    /** Each block's index is one more than its predecessor's. */
    ghost predicate IndicesConsecutive()
      reads this`chain, chain
    {
      forall i :: 0 <= i < |chain| - 1 ==> IndexStepAt(i)
    }

    /** Block `i + 1` has the index after that of block `i`. */
    ghost predicate IndexStepAt(i: int)
      reads this`chain
    {
      0 <= i < |chain| - 1 && chain[i + 1].index == chain[i].index + 1
    }

    constructor (digest: Fields<Tx> -> string, now: real)
      ensures this.digest == digest && unconfirmedTransactions == []
      ensures Valid() && HashesRecompute() && IndicesConsecutive()
      ensures |chain| == 1 && fresh(chain[0])
      ensures chain[0].Attributes() == Fields(0, [], now, "0", None, Some(digest(Fields(0, [], now, "0", None, None))))
    {
      this.digest := digest;
      unconfirmedTransactions := [];
      chain := [];
      new;
      CreateGenesisBlock(now);
    }

    /** Appends the genesis block, whose hash is its digest and which is
        exempt from the difficulty. */
    method CreateGenesisBlock(now: real)
      requires chain == []
      modifies this
      ensures unconfirmedTransactions == old(unconfirmedTransactions)
      ensures Valid() && HashesRecompute() && IndicesConsecutive()
      ensures |chain| == 1 && fresh(chain[0])
      ensures chain[0].Attributes() == Fields(0, [], now, "0", None, Some(digest(Fields(0, [], now, "0", None, None))))
    {
      var genesisBlock := new Block(0, [], now, "0");
      genesisBlock.hash := Some(genesisBlock.ComputeHash(digest));
      chain := chain + [genesisBlock];
    }

    /** The most recent block; it exists because the chain is never empty. */
    function LastBlock(): (b: Block<Tx>)
      reads this`chain, chain
      requires Valid()
      ensures b == chain[|chain| - 1] && b.hash.Some?
    {
      assert SealedAt(|chain| - 1);
      chain[|chain| - 1]
    }

    /** The candidate `Mine` builds at time `now` from the buffered transactions. */
    ghost function Candidate(now: real): Fields<Tx>
      reads this, chain
      requires Valid()
    {
      Fields(LastBlock().index + 1, unconfirmedTransactions, now, LastBlock().hash.value, None, None)
    }

    /** Tries nonces 0, 1, 2, ... and stops at the first whose hash meets the
        difficulty; the block keeps that nonce. */
    method ProofOfWork(block: Block<Tx>) returns (computedHash: string)
      requires Minable(digest, block.Attributes())
      modifies block
      ensures block.Attributes() == WithNonce(old(block.Attributes()), LeastNonce(digest, old(block.Attributes())))
      ensures computedHash == block.ComputeHash(digest) && MeetsDifficulty(computedHash)
    {
      ghost var f := block.Attributes();
      ghost var w: nat :| NonceWorks(digest, f, w);
      block.nonce := Some(0);
      computedHash := block.ComputeHash(digest);
      while !MeetsDifficulty(computedHash)
        invariant block.nonce.Some? && block.nonce.value <= w
        invariant block.Attributes() == WithNonce(f, block.nonce.value)
        invariant computedHash == block.ComputeHash(digest)
        invariant forall k: nat :: k < block.nonce.value ==> !NonceWorks(digest, f, k)
        decreases w - block.nonce.value
      {
        block.nonce := Some(block.nonce.value + 1);
        computedHash := block.ComputeHash(digest);
      }
      LeastNonceUnique(digest, f, block.nonce.value);
    }

    /** `blockHash` is a proof for `block`: it has the required zero prefix
        and is the block's digest. */
    function IsValidProof(block: Block<Tx>, blockHash: string): (ok: bool)
      reads block
      ensures ok <==> && Difficulty <= |blockHash|
                      && (forall i :: 0 <= i < Difficulty ==> blockHash[i] == '0')
                      && blockHash == digest(block.Attributes())
    {
      MeetsDifficulty(blockHash) && blockHash == block.ComputeHash(digest)
    }

    /** Appends `block` with `proof` as its hash when it links to the tip and
        the proof is valid; otherwise changes nothing. */
    method AddBlock(block: Block<Tx>, proof: string) returns (added: bool)
      requires Valid() && block !in chain
      modifies this, block
      ensures Valid()
      ensures added <==> Admits(digest, old(LastBlock().hash.value), old(block.Attributes()), proof)
      ensures added ==> chain == old(chain) + [block] && block.hash == Some(proof)
      ensures !added ==> chain == old(chain) && block.hash == old(block.hash)
      ensures forall b <- old(chain) :: unchanged(b)
      ensures block.nonce == old(block.nonce) && unconfirmedTransactions == old(unconfirmedTransactions)
      ensures old(HashesRecompute()) && old(block.hash) == None ==> HashesRecompute()
      ensures old(IndicesConsecutive()) && (added ==> block.index == old(LastBlock().index) + 1) ==> IndicesConsecutive()
    {
      var previousHash := LastBlock().hash.value;
      if previousHash != block.previousHash {
        return false;
      }
      if !IsValidProof(block, proof) {
        return false;
      }
      block.hash := Some(proof);
      chain := chain + [block];
      forall i | 0 <= i < |chain|
        ensures SealedAt(i)
      {
        if i < |chain| - 1 {
          assert old(SealedAt(i));
        }
      }
      forall i | 0 <= i < |chain| - 1
        ensures LinkedAt(i)
        ensures old(IndicesConsecutive()) && block.index == old(LastBlock().index) + 1 ==> IndexStepAt(i)
      {
        if i < |chain| - 2 {
          assert old(LinkedAt(i));
          assert old(IndicesConsecutive()) ==> old(IndexStepAt(i));
        }
      }
      return true;
    }

    /** Buffers one transaction at the end of the pending list. */
    method AddNewTransaction(transaction: Tx)
      requires Valid()
      modifies this`unconfirmedTransactions
      ensures Valid()
      ensures unconfirmedTransactions == old(unconfirmedTransactions) + [transaction]
    {
      unconfirmedTransactions := unconfirmedTransactions + [transaction];
    }

    /** Turns the buffered transactions into a new block: builds the candidate
        on the tip, searches its nonce, appends it and empties the buffer. */
    method Mine(now: real) returns (outcome: MineOutcome)
      requires Valid()
      requires unconfirmedTransactions != [] ==> Minable(digest, Candidate(now))
      modifies this
      ensures Valid()
      ensures old(unconfirmedTransactions) == [] ==>
                outcome == NothingToMine && chain == old(chain) && unconfirmedTransactions == []
      ensures old(unconfirmedTransactions) != [] ==>
                var mined := WithNonce(old(Candidate(now)), LeastNonce(digest, old(Candidate(now))));
                && chain == old(chain) + [LastBlock()]
                && fresh(LastBlock())
                && LastBlock().Attributes() == mined.(hash := Some(digest(mined)))
                && outcome == Mined(mined.index)
                && unconfirmedTransactions == []
      ensures old(HashesRecompute()) ==> HashesRecompute()
      ensures old(IndicesConsecutive()) ==> IndicesConsecutive()
    {
      if |unconfirmedTransactions| == 0 {
        return NothingToMine;
      }
      ghost var candidate := Candidate(now);
      var lastBlock := LastBlock();
      var newBlock := new Block(lastBlock.index + 1, unconfirmedTransactions, now, lastBlock.hash.value);
      assert newBlock.Attributes() == candidate;
      var proof := ProofOfWork(newBlock);
      assert Valid() && chain == old(chain);
      MinedCandidateAdmitted(digest, lastBlock.hash.value, candidate);
      assert Admits(digest, lastBlock.hash.value, newBlock.Attributes(), proof);
      var added := AddBlock(newBlock, proof);
      assert added;
      assert chain == old(chain) + [newBlock];
      unconfirmedTransactions := [];
      return Mined(newBlock.index);
    }

    /** Along a chain with consecutive indices, each block's index is its position. */
    lemma {:induction false} IndexIsPosition(i: nat)
      requires Valid() && IndicesConsecutive() && i < |chain|
      ensures chain[i].index == i
      decreases i
    {
      if i > 0 {
        IndexIsPosition(i - 1);
        assert IndexStepAt(i - 1);
      }
    }
  }
}
