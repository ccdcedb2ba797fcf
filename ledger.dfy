/**
 * The ledger object: the in-memory chain and its persisted, append-only
 * log (`curChain.json`, one block per line), with the operations that load,
 * extend, inspect and validate it, and the free `addBlock` entry point.
 *
 * The file is the `log` field; the host clock is the `now` parameter; the
 * digest and the canonical encoding are the `crypto` parameter.
 */
module Ledger {
  import opened Wrappers
  import opened Blocks
  import opened Puzzle
  import opened Validation

  class Blockchain {
    /** `self.chain`: the blocks in memory, oldest first. */
    var chain: seq<Block>
    /** The lines of the persisted log, each read back as the block it encodes. */
    var log: seq<Block>

    /** The log mirrors the chain, and the chain is never empty. */
    ghost predicate Valid()
      reads this
    {
      chain == log && |chain| > 0
    }

    /**
     * `__init__`: loads the persisted blocks in file order, then adds the
     * genesis block when the file held none.
     */
    constructor (persisted: seq<Block>, now: string)
      ensures Valid()
      ensures persisted != [] ==> chain == persisted && log == persisted
      ensures persisted == [] ==> chain == [Genesis(now)] && log == [Genesis(now)]
    {
      chain := [];
      log := persisted;
      new;
      for i := 0 to |persisted|
        invariant chain == persisted[..i]
        invariant log == persisted
      {
        chain := chain + [persisted[i]];
      }
      if chain == [] {
        var _ := CreateBlock(1, "0", Label("-1"), now);
      }
    }

    /**
     * `createblock`: refuses a block whose `prevhash` some block already
     * carries; otherwise numbers the new block one past the end, appends it
     * to the chain and to the log, and returns it.
     */
    method CreateBlock(proof: int, prevhash: string, crudId: CrudId, now: string)
      returns (r: Option<Block>)
      modifies this
      ensures old(HasPrevHash(chain, prevhash)) ==>
        r == None && chain == old(chain) && log == old(log)
      ensures !old(HasPrevHash(chain, prevhash)) ==>
        r == Some(Block(|old(chain)| + 1, now, proof, prevhash, crudId)) &&
        chain == old(chain) + [r.value] &&
        log == old(log) + [r.value]
      ensures old(Contiguous(chain)) ==> Contiguous(chain)
      ensures old(Valid()) ==> Valid()
    {
      if HasPrevHash(chain, prevhash) {
        return None;
      }
      var block := Block(|chain| + 1, now, proof, prevhash, crudId);
      ghost var before := chain;
      chain := chain + [block];
      log := log + [block];
      if Contiguous(before) {
        AppendKeepsContiguous(before, block);
      }
      return Some(block);
    }

    /** `getprevblock`: the most recent block. */
    method GetPrevBlock() returns (b: Block)
      requires |chain| > 0
      ensures b == chain[|chain| - 1]
      ensures Contiguous(chain) ==> b.index == |chain|
    {
      b := chain[|chain| - 1];
    }

    /**
     * `proofofwork`: counts up from 1 until the digest of the puzzle operand
     * starts with "00000", and returns the first such candidate.
     */
    method ProofOfWork(crypto: Crypto, prevproof: int) returns (newproof: int)
      requires Solvable(crypto.sha256, prevproof)
      ensures IsLeastProof(crypto.sha256, prevproof, newproof)
      ensures newproof == LeastProof(crypto.sha256, prevproof)
    {
      ghost var w :| 1 <= w && Mined(crypto.sha256, w, prevproof);
      newproof := 1;
      var checkproof := false;
      while !checkproof
        invariant 1 <= newproof <= w
        invariant forall m :: 1 <= m < newproof ==> !Mined(crypto.sha256, m, prevproof)
        invariant checkproof ==> Mined(crypto.sha256, newproof, prevproof)
        decreases w - newproof, if checkproof then 0 else 1
      {
        var op := PowDigest(crypto.sha256, newproof, prevproof);
        if Head(op, |Difficulty|) == Difficulty {
          checkproof := true;
        } else {
          newproof := newproof + 1;
        }
      }
      LeastProofUnique(crypto.sha256, prevproof, newproof, LeastProof(crypto.sha256, prevproof));
    }

    /**
     * `ischainvalid`, as written: walks the adjacent pairs, answers False on
     * the first broken link and True on the first unsolved puzzle.
     */
    method IsChainValid(crypto: Crypto, c: seq<Block>) returns (valid: bool)
      requires |c| > 0
      ensures valid <==> AcceptedAsWritten(crypto, c)
      ensures |c| == 1 ==> valid
    {
      var prevblock := c[0];
      var blockindex := 1;
      while blockindex < |c|
        invariant 1 <= blockindex <= |c|
        invariant prevblock == c[blockindex - 1]
        invariant forall j :: 1 <= j < blockindex ==> PairOk(crypto, c, j)
      {
        var currentblock := c[blockindex];
        if currentblock.prevhash != Hash(crypto, prevblock) {
          assert RejectedAt(crypto, c, blockindex);
          return false;
        }
        var prevproof := prevblock.proof;
        var currentproof := currentblock.proof;
        var op := PowDigest(crypto.sha256, currentproof, prevproof);
        if Head(op, |Difficulty|) != Difficulty {
          PowFailureEndsCheck(crypto, c, blockindex);
          return true;
        }
        prevblock := currentblock;
        blockindex := blockindex + 1;
      }
      IntendedValidAccepted(crypto, c);
      return true;
    }

    /**
     * `ischainvalid` as its comments describe it: a failed puzzle rejects
     * the chain, like a broken link.
     */
    method IsChainValidCorrected(crypto: Crypto, c: seq<Block>) returns (valid: bool)
      requires |c| > 0
      ensures valid <==> IntendedValid(crypto, c)
      ensures valid ==> AcceptedAsWritten(crypto, c)
    {
      var prevblock := c[0];
      var blockindex := 1;
      while blockindex < |c|
        invariant 1 <= blockindex <= |c|
        invariant prevblock == c[blockindex - 1]
        invariant forall j :: 1 <= j < blockindex ==> PairOk(crypto, c, j)
      {
        var currentblock := c[blockindex];
        if currentblock.prevhash != Hash(crypto, prevblock) {
          assert !PairOk(crypto, c, blockindex);
          return false;
        }
        var prevproof := prevblock.proof;
        var currentproof := currentblock.proof;
        var op := PowDigest(crypto.sha256, currentproof, prevproof);
        if Head(op, |Difficulty|) != Difficulty {
          assert !PairOk(crypto, c, blockindex);
          return false;
        }
        prevblock := currentblock;
        blockindex := blockindex + 1;
      }
      IntendedValidAccepted(crypto, c);
      return true;
    }
  }

  /**
   * `addBlock`: mines a proof against the latest block's proof, hashes the
   * latest block, and asks the ledger to append a block carrying both.
   */
  method AddBlock(bc: Blockchain, crypto: Crypto, crudId: CrudId, now: string)
    requires bc.Valid()
    requires Solvable(crypto.sha256, bc.chain[|bc.chain| - 1].proof)
    modifies bc
    ensures bc.Valid()
    ensures var last := old(bc.chain[|bc.chain| - 1]);
      var link := Hash(crypto, last);
      if HasPrevHash(old(bc.chain), link) then
        bc.chain == old(bc.chain)
      else
        bc.chain == old(bc.chain) +
          [Block(|old(bc.chain)| + 1, now, LeastProof(crypto.sha256, last.proof), link, crudId)]
    ensures old(Contiguous(bc.chain)) ==> Contiguous(bc.chain)
    ensures old(IntendedValid(crypto, bc.chain)) ==> IntendedValid(crypto, bc.chain)
  {
    var prevblock := bc.GetPrevBlock();
    var prevproof := prevblock.proof;
    var proof := bc.ProofOfWork(crypto, prevproof);
    var prevhash := Hash(crypto, prevblock);
    ghost var before := bc.chain;
    var _ := bc.CreateBlock(proof, prevhash, crudId, now);
    if bc.chain != before && IntendedValid(crypto, before) {
      ExtendKeepsIntendedValid(crypto, before, bc.chain[|bc.chain| - 1]);
    }
  }

  /**
   * Reloading: a ledger constructed from the log of another reproduces that
   * ledger's chain, block for block and in order.
   */
  method Reload(bc: Blockchain, now: string) returns (reloaded: Blockchain)
    requires bc.Valid()
    ensures fresh(reloaded) && reloaded.Valid()
    ensures reloaded.chain == bc.chain
  {
    reloaded := new Blockchain(bc.log, now);
  }

  /**
   * The life of a ledger started on an empty log: the genesis block, one
   * recorded create operation, a validation, and a validation after the new
   * block's link was overwritten.
   */
  method GenesisAppendTamper(crypto: Crypto, now1: string, now2: string)
    returns (size: int, before: bool, after: bool)
    requires forall s :: |crypto.sha256(s)| == 64
    requires Solvable(crypto.sha256, 1)
    ensures size == 2
    ensures before && !after
  {
    var bc := new Blockchain([], now1);
    assert bc.chain == [Genesis(now1)];
    assert |Hash(crypto, Genesis(now1))| == 64;
    SingleBlockValid(crypto, Genesis(now1));
    AddBlock(bc, crypto, Code(0), now2);
    size := |bc.chain|;
    before := bc.IsChainValid(crypto, bc.chain);
    var wrong := bc.chain[1].prevhash + "0";
    TamperedLinkRejected(crypto, bc.chain, 1, wrong);
    var forged := bc.chain[1 := bc.chain[1].(prevhash := wrong)];
    after := bc.IsChainValid(crypto, forged);
  }
}
