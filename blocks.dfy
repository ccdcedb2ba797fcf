/**
 * The block record of the ledger and the canonical block hash.
 *
 * SHA-256 and the sorted-key JSON encoding are foreign library calls; they
 * are a parameter of type `Crypto`, so every property proved here holds for
 * every digest function and every encoding.
 */
module Blocks {

  /**
   * The `crud_id` field: the genesis block carries the string "-1", blocks
   * added by callers carry an integer operation code (0 create, 1 read,
   * 2 update, 3 delete).
   */
  datatype CrudId = Label(text: string) | Code(op: int)

  datatype Block = Block(
    index: int,
    timestamp: string,
    proof: int,
    prevhash: string,
    crudId: CrudId)

  /**
   * `sha256(s)` stands for `hashlib.sha256(s.encode()).hexdigest()`;
   * `dumps(b)` stands for `json.dumps(b, sort_keys = True)`.
   */
  datatype Crypto = Crypto(sha256: string -> string, dumps: Block -> string)

  /** `Blockchain.hash`: the digest of the block's canonical encoding. */
  function Hash(crypto: Crypto, b: Block): string {
    crypto.sha256(crypto.dumps(b))
  }

  /** The block `createblock(proof = 1, prevhash = "0", crud_id = "-1")` builds on an empty chain. */
  function Genesis(now: string): (g: Block)
    ensures Contiguous([g]) && g.prevhash == "0" && g.proof == 1 && g.crudId == Label("-1")
  {
    Block(1, now, 1, "0", Label("-1"))
  }

  /**
   * `any(x['prevhash'] == h for x in c)`, scanning from the front: some
   * block of `c` already records `h` as its predecessor link.
   */
  predicate HasPrevHash(c: seq<Block>, h: string)
    ensures HasPrevHash(c, h) <==> exists i :: 0 <= i < |c| && c[i].prevhash == h
    decreases |c|
  {
    if c == [] then false else c[0].prevhash == h || HasPrevHash(c[1..], h)
  }

  /** Indices run 1, 2, ..., |c| in chain order. */
  predicate Contiguous(c: seq<Block>) {
    forall i :: 0 <= i < |c| ==> c[i].index == i + 1
  }

  /** A block numbered one past the end keeps the numbering contiguous. */
  lemma {:induction false} AppendKeepsContiguous(c: seq<Block>, b: Block)
    requires Contiguous(c)
    requires b.index == |c| + 1
    ensures Contiguous(c + [b])
    ensures forall i :: 1 <= i < |c + [b]| ==> (c + [b])[i].index == (c + [b])[i - 1].index + 1
  {
  }
}
