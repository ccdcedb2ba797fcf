/**
 * The proof-of-work puzzle: a candidate `n` solves the puzzle for the
 * predecessor's proof `p` when the hex digest of `str(n**2 - p**5)` starts
 * with five '0' characters.
 */
module Puzzle {
  import opened Decimal

  /** The required digest prefix. */
  const Difficulty: string := "00000"

  /** Python's slice `s[:k]`: the whole string when it is shorter than `k`. */
  function Head(s: string, k: nat): (r: string)
    ensures |r| == if |s| < k then |s| else k
    ensures r <= s
  {
    if |s| <= k then s else s[..k]
  }

  /** `newproof**2 - prevproof**5` on unbounded Python integers. */
  function Operand(n: int, p: int): int {
    n * n - p * p * p * p * p
  }

  /** The digest the puzzle inspects for candidate `n`. */
  function PowDigest(sha256: string -> string, n: int, p: int): string {
    sha256(IntToStr(Operand(n, p)))
  }

  /** `op[:5] == "00000"` for the digest of candidate `n`. */
  predicate Mined(sha256: string -> string, n: int, p: int)
    ensures Mined(sha256, n, p) <==> Difficulty <= PowDigest(sha256, n, p)
  {
    Head(PowDigest(sha256, n, p), |Difficulty|) == Difficulty
  }

  /** Some positive candidate solves the puzzle, so the search for one stops. */
  ghost predicate Solvable(sha256: string -> string, p: int) {
    exists n :: 1 <= n && Mined(sha256, n, p)
  }

  /** `n` is the first solution met when counting up from 1. */
  predicate IsLeastProof(sha256: string -> string, p: int, n: int) {
    1 <= n && Mined(sha256, n, p) && forall m :: 1 <= m < n ==> !Mined(sha256, m, p)
  }

  /** Below any solution `w` lies a least solution. */
  lemma {:induction false} LeastProofBelow(sha256: string -> string, p: int, w: int)
    requires 1 <= w && Mined(sha256, w, p)
    ensures exists n :: n <= w && IsLeastProof(sha256, p, n)
    decreases w
  {
    if forall m :: 1 <= m < w ==> !Mined(sha256, m, p) {
      assert IsLeastProof(sha256, p, w);
    } else {
      var m :| 1 <= m < w && Mined(sha256, m, p);
      LeastProofBelow(sha256, p, m);
    }
  }

  /** There is only one least solution. */
  lemma LeastProofUnique(sha256: string -> string, p: int, n1: int, n2: int)
    requires IsLeastProof(sha256, p, n1)
    requires IsLeastProof(sha256, p, n2)
    ensures n1 == n2
  {
  }

  /** The answer of the proof-of-work search, as a reference definition. */
  ghost function LeastProof(sha256: string -> string, p: int): (n: int)
    requires Solvable(sha256, p)
    ensures IsLeastProof(sha256, p, n)
  {
    var w :| 1 <= w && Mined(sha256, w, p);
    LeastProofBelow(sha256, p, w);
    var n :| IsLeastProof(sha256, p, n);
    n
  }
}
