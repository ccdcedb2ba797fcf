# Block-Aviate ledger, modelled in Dafny

Block-Aviate keeps a hash-chained ledger next to a Weaviate database. A
batch import records a block with operation code 0 at every 10th (or n-th)
inserted entry, and each query records one block with code 1. Codes 2 and 3
(update, delete) are defined but never used. A block holds an index, a timestamp, a proof-of-work value, the hash of its
predecessor (`prevhash`) and the operation code (`crud_id`). The chain lives
in memory and is mirrored line by line in an append-only file.

This project models that ledger:

- `decimal.dfy` (module `Decimal`): Python's `str()` on integers. This is the
  signed decimal text that the puzzle hashes. It comes with a parser and a
  round-trip proof.
- `blocks.dfy` (module `Blocks`): the block record, the `crud_id` field, the
  genesis block, the canonical block hash, and the "contiguous indices"
  invariant.
  - SHA-256 and the sorted-key JSON encoding are not given bodies. They are a
    value `Crypto(sha256, dumps)` that every operation takes as a parameter,
    so each proof holds for every digest and every encoding, except under
    the assumptions listed in "## Left out".
- `puzzle.dfy` (module `Puzzle`): the proof-of-work condition. The hex digest
  of `str(n**2 - p**5)` must start with `"00000"`. The module also defines
  the least solution as an independent reference definition.
- `validation.dfy` (module `Validation`): two verdicts on a chain.
  - The verdict `ischainvalid` actually computes.
  - The verdict its comments describe.
  - Lemmas relating the two, including the discrepancy between them.
- `ledger.dfy` (module `Ledger`): the `Blockchain` class, with `chain` and
  the persisted `log` as fields. Its methods are `__init__`, `createblock`,
  `getprevblock`, `proofofwork` and `ischainvalid`.
  - The free function `addBlock` takes the ledger object as an argument.
  - A reload method and an end-to-end scenario are included as clients.

The host clock (`datetime.now()`) is the `now: string` parameter. The file
`curChain.json` is the `log` field: one decoded block per line.

## Model

| member | source | states |
|---|---|---|
| `Decimal.IntToStr` | blockaviate.py:64 | Python's `str()` on an int: '-' first exactly when the value is negative, then decimal digits with no leading zero, and "0" for zero |
| `Decimal.ParseIntToStr` | blockaviate.py:64 | `str(x)` of the puzzle operand loses nothing: parsing it gives back `x`, negative values included |
| `Decimal.IntToStrInjective` | blockaviate.py:95 | different operands give different digest inputs, so the digest input determines the operand `n**2 - prevproof**5` |
| `Blocks.Hash` | blockaviate.py:73-75 | `hash`: the SHA-256 hex digest of the block's sorted-key JSON encoding. What it is for is stated by `Validation.TamperedBlockDetected` |
| `Blocks.Genesis` | blockaviate.py:33 | the genesis block has prevhash "0", proof 1 and crud_id "-1", and is numbered 1, so on its own it is contiguously numbered |
| `Blocks.HasPrevHash` | blockaviate.py:38 | the `any(...)` scan of the duplicate guard is true exactly when some block of the chain has the given `prevhash` |
| `Blocks.AppendKeepsContiguous` | blockaviate.py:41 | appending a block numbered `len + 1` to a chain numbered 1..k gives a chain numbered 1..k+1, so each index is its predecessor's plus one |
| `Puzzle.Head` | blockaviate.py:66 | Python's `op[:5]`: the first five characters, or the whole string when it is shorter |
| `Puzzle.Mined` | blockaviate.py:64-66 | `op[:5] == "00000"` holds exactly when the digest of `str(n**2 - p**5)` has "00000" as a prefix |
| `Puzzle.LeastProofBelow` | blockaviate.py:58-71 | whenever some candidate `w >= 1` solves the puzzle, a least solution exists and it is at most `w` |
| `Puzzle.LeastProofUnique` | blockaviate.py:58-71 | the least solution is unique, so the search has one determined answer |
| `Puzzle.LeastProof` | blockaviate.py:58-71 | the reference answer: a solution `>= 1` below which every candidate fails |
| `Validation.SingleBlockValid` | blockaviate.py:78-81 | a chain of only the genesis block is valid, both as written and as intended |
| `Validation.IntendedValidAccepted` | blockaviate.py:77-103 | every chain that passes both checks at every pair is accepted by the validator as written |
| `Validation.PowFailureEndsCheck` | blockaviate.py:97-98 | if the first failing pair fails only the puzzle, the chain is accepted whatever the later blocks hold, though it is not valid as intended |
| `Validation.ExtendKeepsIntendedValid` | blockaviate.py:109-114 | a block that links to the hash of a valid chain's last block and solves the puzzle against its proof keeps the chain valid |
| `Validation.UnminedBlockAccepted` | blockaviate.py:90-98 | a correctly linked block that does not solve the puzzle, appended to a valid chain, is accepted as written but is not valid as intended |
| `Validation.UnminedBlockExample` | blockaviate.py:97-98 | a concrete two-block chain with a correct link and an unsolved puzzle that the validator as written accepts |
| `Validation.TamperedProofAccepted` | blockaviate.py:93-98 | overwriting the proof of any non-genesis block of a valid chain with a non-solution goes unnoticed by the validator as written, though the chain is no longer valid as intended |
| `Validation.TamperedBlockDetected` | blockaviate.py:86-88 | editing any block before the last of a valid chain, keeping its link and proof, makes the validator answer False whenever the edit changes that block's hash |
| `Validation.TamperedLinkRejected` | blockaviate.py:86-88 | overwriting any block's `prevhash` in a valid chain with a wrong hash makes the validator answer False |
| `Ledger.Blockchain.constructor` | blockaviate.py:20-33 | after loading, the chain is non-empty and mirrors the log. A non-empty file is taken as it is, in file order. An empty one yields exactly the genesis block (index 1, proof 1, prevhash "0", crud_id "-1"), which is also written to the log |
| `Ledger.Blockchain.CreateBlock` | blockaviate.py:36-53 | a `prevhash` already present gives `None` and leaves chain and log unchanged. Otherwise exactly one block is appended to both, with index `old length + 1` and the given fields, and that block is returned. Contiguous numbering is preserved |
| `Ledger.Blockchain.GetPrevBlock` | blockaviate.py:55-56 | returns the last block and changes nothing; under contiguous numbering its index is the chain length |
| `Ledger.Blockchain.ProofOfWork` | blockaviate.py:58-71 | the result is `>= 1`, solves the puzzle, and every smaller candidate fails: it equals the least solution |
| `Ledger.Blockchain.IsChainValid` | blockaviate.py:77-103 | answers False exactly when some pair has a broken link and every earlier pair passed both checks. A one-block chain gives True |
| `Ledger.Blockchain.IsChainValidCorrected` | blockaviate.py:83-98 | answers True exactly when every pair passes both the link check and the puzzle check |
| `Ledger.AddBlock` | blockaviate.py:109-114 | if the latest block's hash is already some block's `prevhash`, the chain is unchanged. Otherwise one block is appended, with that hash as `prevhash` and the least solution for the latest proof as `proof`. Contiguous numbering and validity as intended are preserved |
| `Ledger.Reload` | blockaviate.py:26-52 | a new ledger object built from another ledger's log reproduces its chain block for block, in order |
| `Ledger.GenesisAppendTamper` | blockaviate.py:20-114 | from an empty log: genesis, then one recorded create gives two blocks and the validator answers True. After the new block's `prevhash` is overwritten, it answers False |

## Findings

| source | as written | input that shows it | evidently intended | confidence | as-written member | corrected member |
|---|---|---|---|---|---|---|
| blockaviate.py:97-98 | when a block's proof does not solve the puzzle, `ischainvalid` returns True and skips the remaining pairs | genesis followed by a block whose `prevhash` is the genesis hash and whose proof is 2, which does not solve the puzzle against proof 1 | return False: the comment at lines 90-91 says this check rejects blocks that were not correctly mined | high, not executed | `Validation.UnminedBlockAccepted` | `Ledger.Blockchain.IsChainValidCorrected` |

## Left out

- The Weaviate client, schema creation, batch import, `Query` and `Insert` (blockaviate.py:118-216) are network I/O against an external service. The commented-out queries after them are dead code.
- SHA-256 and `json.dumps`/`json.loads` are foreign library calls. They are the `Crypto` parameter. Two assumptions are made about the digest:
  - `Ledger.Blockchain.ProofOfWork`, `Ledger.AddBlock` and `Ledger.GenesisAppendTamper` assume that the puzzle has a solution for the proof they mine against (`Solvable`).
  - `Ledger.GenesisAppendTamper` also assumes every digest is 64 characters long, as a hex SHA-256 digest is.
  Nothing else is assumed of them beyond being functions.
- File I/O: the model has no opening, reading, appending or flushing of `curChain.json`, and no text encoding.
  - The constructor receives the already-decoded lines.
  - A missing file makes the source's `open(..., 'r')` raise. That error is not modelled.
  - A line that does not decode to a block of the five fields is not modelled either.
- The log is written with unsorted-key `json.dumps` and read back with `json.loads`. The model stores the block itself, so it assumes this round trip is lossless.
- Aliasing of blocks is not modelled: blocks are values.
  - In the source, `createblock` returns the same dict it appended, and `getprevblock` returns the stored dict itself.
  - A caller could therefore edit a stored block in place. No caller in the source does so.
- `datetime.datetime.now()` is host-clock input. It is the `now` parameter.
- The module-level singleton `blockchain = Blockchain()` is replaced by an explicit `Blockchain` argument to `AddBlock`.
- `Ledger.Blockchain.ProofOfWork`: requires that some candidate solves the puzzle (`Solvable`). The source's loop simply runs forever when none does. Termination of the unbounded search is therefore not modelled.
- `Ledger.AddBlock`: carries the same `Solvable` requirement for the latest block's proof, for the same reason.
- `Ledger.Blockchain.IsChainValid`: requires a non-empty chain. On an empty list the source's `chain[0]` raises `IndexError`, and that error path is not modelled. The same holds for `Ledger.Blockchain.IsChainValidCorrected`.
- `Ledger.Blockchain.GetPrevBlock`: requires a non-empty chain. The source's `chain[-1]` raises `IndexError` on an empty list, which cannot happen after construction.
- The operation code is a small datatype: the text `"-1"` for genesis, or an integer from callers. Nothing checks that the integer is 0 to 3.
- The unused `timeit` import has nothing to model.
