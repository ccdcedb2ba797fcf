/**
 * What `ischainvalid` decides about a chain, and what it was meant to decide.
 *
 * For each adjacent pair (chain[i-1], chain[i]) the validator checks the
 * link (`prevhash` equals the hash of the predecessor) and then the puzzle
 * (the block's proof solves it for the predecessor's proof). A broken link
 * makes it answer False; a failed puzzle makes it answer True at once.
 */
module Validation {
  import opened Blocks
  import opened Puzzle

  predicate LinkOk(crypto: Crypto, c: seq<Block>, i: int)
    requires 1 <= i < |c|
  {
    c[i].prevhash == Hash(crypto, c[i - 1])
  }

  predicate PowOk(crypto: Crypto, c: seq<Block>, i: int)
    requires 1 <= i < |c|
  {
    Mined(crypto.sha256, c[i].proof, c[i - 1].proof)
  }

  predicate PairOk(crypto: Crypto, c: seq<Block>, i: int)
    requires 1 <= i < |c|
  {
    LinkOk(crypto, c, i) && PowOk(crypto, c, i)
  }

  /** Pair `i` is the first pair that fails, and it fails on its link. */
  predicate RejectedAt(crypto: Crypto, c: seq<Block>, i: int) {
    1 <= i < |c| && !LinkOk(crypto, c, i) &&
    forall j :: 1 <= j < i ==> PairOk(crypto, c, j)
  }

  /** The verdict of the validator as written: no pair is rejected. */
  predicate AcceptedAsWritten(crypto: Crypto, c: seq<Block>) {
    forall i :: 1 <= i < |c| ==> !RejectedAt(crypto, c, i)
  }

  /** The verdict the validator's own comments describe: every pair passes both checks. */
  predicate IntendedValid(crypto: Crypto, c: seq<Block>) {
    forall i :: 1 <= i < |c| ==> PairOk(crypto, c, i)
  }

  /** A chain holding only its genesis block is valid under both verdicts. */
  lemma SingleBlockValid(crypto: Crypto, b: Block)
    ensures AcceptedAsWritten(crypto, [b]) && IntendedValid(crypto, [b])
  {
  }

  /** Every chain that is valid as intended is accepted as written. */
  lemma IntendedValidAccepted(crypto: Crypto, c: seq<Block>)
    requires IntendedValid(crypto, c)
    ensures AcceptedAsWritten(crypto, c)
  {
    forall i | 1 <= i < |c|
      ensures !RejectedAt(crypto, c, i)
    {
      assert PairOk(crypto, c, i);
    }
  }

  /**
   * Once the first failing pair fails only on its puzzle, the chain is
   * accepted, whatever the later blocks hold.
   */
  lemma PowFailureEndsCheck(crypto: Crypto, c: seq<Block>, i: int)
    requires 1 <= i < |c|
    requires forall j :: 1 <= j < i ==> PairOk(crypto, c, j)
    requires LinkOk(crypto, c, i) && !PowOk(crypto, c, i)
    ensures AcceptedAsWritten(crypto, c)
    ensures !IntendedValid(crypto, c)
  {
    forall k | 1 <= k < |c|
      ensures !RejectedAt(crypto, c, k)
    {
      if k < i {
        assert PairOk(crypto, c, k);
      } else if k > i {
        assert !PairOk(crypto, c, i);
      }
    }
    assert !PairOk(crypto, c, i);
  }

  /** A block that links to the end of a valid chain and solves the puzzle keeps it valid. */
  lemma ExtendKeepsIntendedValid(crypto: Crypto, c: seq<Block>, b: Block)
    requires |c| >= 1 && IntendedValid(crypto, c)
    requires b.prevhash == Hash(crypto, c[|c| - 1])
    requires Mined(crypto.sha256, b.proof, c[|c| - 1].proof)
    ensures IntendedValid(crypto, c + [b])
  {
    var d := c + [b];
    forall i | 1 <= i < |d|
      ensures PairOk(crypto, d, i)
    {
      if i < |c| {
        assert PairOk(crypto, c, i);
      }
    }
  }

  /**
   * Finding: a block that links correctly to the end of a valid chain but
   * does not solve the puzzle is accepted by the validator as written,
   * although the chain is not valid as intended.
   */
  lemma UnminedBlockAccepted(crypto: Crypto, c: seq<Block>, b: Block)
    requires |c| >= 1 && IntendedValid(crypto, c)
    requires b.prevhash == Hash(crypto, c[|c| - 1])
    requires !Mined(crypto.sha256, b.proof, c[|c| - 1].proof)
    ensures AcceptedAsWritten(crypto, c + [b])
    ensures !IntendedValid(crypto, c + [b])
  {
    var d := c + [b];
    forall j | 1 <= j < |c|
      ensures PairOk(crypto, d, j)
    {
      assert PairOk(crypto, c, j);
    }
    PowFailureEndsCheck(crypto, d, |c|);
  }

  /**
   * The finding on one concrete chain: a digest that never starts with
   * "00000", a genesis block, and a second block that links to it with
   * proof 2, which does not solve the puzzle.
   */
  lemma UnminedBlockExample()
    ensures var crypto := Crypto(s => "f", b => "");
      var c := [Genesis("t"), Block(2, "t", 2, "f", Code(0))];
      AcceptedAsWritten(crypto, c) && !IntendedValid(crypto, c)
  {
    var crypto := Crypto(s => "f", b => "");
    var c := [Genesis("t"), Block(2, "t", 2, "f", Code(0))];
    assert LinkOk(crypto, c, 1);
    assert !PowOk(crypto, c, 1);
    PowFailureEndsCheck(crypto, c, 1);
  }

  /**
   * Finding, as a tampering scenario: overwriting the proof of any block
   * after the genesis block of a valid chain with a non-solution goes
   * unnoticed by the validator as written. The puzzle check at that block
   * answers True before the next block's link, now broken whenever the
   * edit changed the block's hash, is ever examined.
   */
  lemma TamperedProofAccepted(crypto: Crypto, c: seq<Block>, k: int, q: int)
    requires IntendedValid(crypto, c)
    requires 1 <= k < |c|
    requires !Mined(crypto.sha256, q, c[k - 1].proof)
    ensures AcceptedAsWritten(crypto, c[k := c[k].(proof := q)])
    ensures !IntendedValid(crypto, c[k := c[k].(proof := q)])
  {
    var t := c[k := c[k].(proof := q)];
    forall j | 1 <= j < k
      ensures PairOk(crypto, t, j)
    {
      assert PairOk(crypto, c, j);
    }
    assert PairOk(crypto, c, k);
    assert LinkOk(crypto, t, k) && !PowOk(crypto, t, k);
    PowFailureEndsCheck(crypto, t, k);
  }

  /**
   * Editing any recorded block other than the last, keeping its link and
   * proof, is detected by the validator as written whenever the edit
   * changes the block's hash: the next block's link no longer matches.
   */
  lemma TamperedBlockDetected(crypto: Crypto, c: seq<Block>, k: int, e: Block)
    requires IntendedValid(crypto, c)
    requires 0 <= k < |c| - 1
    requires e.prevhash == c[k].prevhash && e.proof == c[k].proof
    requires Hash(crypto, e) != Hash(crypto, c[k])
    ensures !AcceptedAsWritten(crypto, c[k := e])
  {
    var t := c[k := e];
    forall j | 1 <= j < k + 1
      ensures PairOk(crypto, t, j)
    {
      assert PairOk(crypto, c, j);
    }
    assert PairOk(crypto, c, k + 1);
    assert RejectedAt(crypto, t, k + 1);
  }

  /**
   * Overwriting the link of any block of a valid chain with a wrong hash is
   * detected by the validator as written.
   */
  lemma TamperedLinkRejected(crypto: Crypto, c: seq<Block>, k: int, h: string)
    requires IntendedValid(crypto, c)
    requires 1 <= k < |c|
    requires h != Hash(crypto, c[k - 1])
    ensures !AcceptedAsWritten(crypto, c[k := c[k].(prevhash := h)])
  {
    var t := c[k := c[k].(prevhash := h)];
    forall j | 1 <= j < k
      ensures PairOk(crypto, t, j)
    {
      assert PairOk(crypto, c, j);
    }
    assert RejectedAt(crypto, t, k);
  }
}
