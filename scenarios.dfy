/** End-to-end uses of the ledger, checked against the contracts alone. The
    digest here is a stand-in that gives every block the same hash. */
module Scenarios {
  import opened Blocks
  import opened Ledger

  function Stand(f: Fields<string>): string {
    "00ff"
  }

  /** A new ledger holds only the genesis block; mining with nothing buffered adds nothing. */
  method GenesisThenEmptyMine() {
    var ledger := new BlockChain<string>(Stand, 100.0);
    assert |ledger.chain| == 1 && ledger.chain[0].index == 0 && ledger.chain[0].previousHash == "0";
    var outcome := ledger.Mine(101.0);
    assert outcome == NothingToMine && |ledger.chain| == 1;
  }

  /** One buffered transaction becomes block 1, whose hash has the zero prefix. */
  method MineOneTransaction() {
    var ledger := new BlockChain<string>(Stand, 100.0);
    ledger.AddNewTransaction("A->B:5");
    assert NonceWorks(Stand, ledger.Candidate(102.0), 0);
    var outcome := ledger.Mine(102.0);
    assert outcome == Mined(1) && |ledger.chain| == 2 && ledger.unconfirmedTransactions == [];
    assert ledger.chain[1].hash == Some("00ff") && ledger.chain[1].transactions == ["A->B:5"];
  }

  /** A block that does not name the tip's hash is refused, even with a valid proof. */
  method TamperedLinkRefused() {
    var ledger := new BlockChain<string>(Stand, 100.0);
    var tampered := new Block(1, ["C->D:1"], 103.0, "tampered");
    var added := ledger.AddBlock(tampered, "00ff");
    assert !added && |ledger.chain| == 1;
  }

  /** A proof with the zero prefix that is not the block's digest is refused. */
  method ForgedProofRefused() {
    var ledger := new BlockChain<string>(Stand, 100.0);
    var linked := new Block(1, ["C->D:1"], 103.0, ledger.LastBlock().hash.value);
    assert !ledger.IsValidProof(linked, "00ab");
    var added := ledger.AddBlock(linked, "00ab");
    assert !added && |ledger.chain| == 1;
  }
}
