/**
 * Short-code generation: the base code taken from a URL's MD5 digest and the
 * sequence of candidates tried when the base is already taken.
 */
module Codes {
  import Hex
  import Decimal

  /** An MD5 digest: sixteen bytes. */
  type Digest = s: seq<Hex.Byte> | |s| == 16
    witness [0, 0, 0, 0, 0, 0, 0, 0, 0, 0, 0, 0, 0, 0, 0, 0]

  /** Number of hex characters of the digest kept as the base code. */
  const BaseLength: nat := 8

  /**
   * The base code: the first eight characters of the lower-case hex encoding
   * of the digest, which are exactly the encoding of its first four bytes.
   */
  function BaseCode(d: Digest): (code: string)
    ensures |code| == BaseLength
    ensures forall i :: 0 <= i < |code| ==> Hex.IsDigit(code[i])
    ensures code == Hex.Encode(d[..4])
  {
    assert d == d[..4] + d[4..];
    Hex.EncodeAppend(d[..4], d[4..]);
    Hex.Encode(d)[..BaseLength]
  }

  /** Two digests give the same base code exactly when their first four bytes agree. */
  lemma BaseCodeCollision(d1: Digest, d2: Digest)
    ensures BaseCode(d1) == BaseCode(d2) <==> d1[..4] == d2[..4]
  {
    Hex.DecodeEncode(d1[..4]);
    Hex.DecodeEncode(d2[..4]);
  }

  /**
   * The shape of every code the store hands out: eight lower-case hex
   * characters followed by zero or more decimal digits.
   */
  predicate IsCode(s: string) {
    && BaseLength <= |s|
    && (forall i :: 0 <= i < BaseLength ==> Hex.IsDigit(s[i]))
    && (forall i :: BaseLength <= i < |s| ==> Decimal.IsDigit(s[i]))
  }

  /**
   * Candidate number n for a base: the base itself for n == 0, and for a
   * positive counter n the base followed by n in decimal. The counter is
   * always appended to the base, never to an earlier candidate.
   */
  function Candidate(base: string, n: nat): (c: string)
    ensures |base| <= |c| && c[..|base|] == base
    ensures |c| == |base| <==> n == 0
    ensures IsCode(base) && |base| == BaseLength ==> IsCode(c)
  {
    if n == 0 then base else base + Decimal.Format(n)
  }

  /** Distinct counters give distinct candidates, so the walk never repeats a code. */
  lemma CandidateInjective(base: string, m: nat, n: nat)
    ensures Candidate(base, m) == Candidate(base, n) ==> m == n
  {
    if m != 0 && n != 0 && Candidate(base, m) == Candidate(base, n) {
      var cm, cn := Candidate(base, m), Candidate(base, n);
      assert Decimal.Format(m) == cm[|base|..];
      assert Decimal.Format(n) == cn[|base|..];
      Decimal.FormatInjective(m, n);
    }
  }

  /** The first n candidates of a base. */
  function Candidates(base: string, n: nat): set<string> {
    set j | 0 <= j < n :: Candidate(base, j)
  }

  lemma {:induction false} CandidatesSize(base: string, n: nat)
    ensures |Candidates(base, n)| == n
  {
    if n > 0 {
      CandidatesSize(base, n - 1);
      assert Candidates(base, n) == Candidates(base, n - 1) + {Candidate(base, n - 1)};
      if Candidate(base, n - 1) in Candidates(base, n - 1) {
        var j :| 0 <= j < n - 1 && Candidate(base, j) == Candidate(base, n - 1);
        CandidateInjective(base, j, n - 1);
      }
    }
  }

  /**
   * A finite set of taken codes can hold at most as many candidates as it has
   * elements: if candidates 0 .. n-1 are all taken, n is at most its size.
   */
  lemma CandidatesCounted(taken: set<string>, base: string, n: nat)
    requires forall j :: 0 <= j < n ==> Candidate(base, j) in taken
    ensures n <= |taken|
  {
    CandidatesSize(base, n);
    assert Candidates(base, n) <= taken;
    SubsetSize(Candidates(base, n), taken);
  }

  lemma {:induction false} SubsetSize(a: set<string>, b: set<string>)
    requires a <= b
    ensures |a| <= |b|
    decreases a
  {
    if a != {} {
      var x :| x in a;
      SubsetSize(a - {x}, b - {x});
    }
  }

  /**
   * The least counter, from n on, whose candidate is not taken; it exists
   * because the taken set is finite and the candidates are all distinct.
   */
  function FreeCounter(taken: set<string>, base: string, n: nat): (k: nat)
    requires forall j :: 0 <= j < n ==> Candidate(base, j) in taken
    ensures n <= k && Candidate(base, k) !in taken
    ensures forall j :: 0 <= j < k ==> Candidate(base, j) in taken
    decreases |taken| - n
  {
    CandidatesCounted(taken, base, n);
    if Candidate(base, n) !in taken then n else FreeCounter(taken, base, n + 1)
  }

  /** The counter of the first candidate of a base that is not taken. */
  function FirstFree(taken: set<string>, base: string): (k: nat)
    ensures Candidate(base, k) !in taken
    ensures forall j :: 0 <= j < k ==> Candidate(base, j) in taken
  {
    FreeCounter(taken, base, 0)
  }

  /** Among the first |taken| + 1 candidates at least one is free. */
  lemma FirstFreeBound(taken: set<string>, base: string)
    ensures FirstFree(taken, base) <= |taken|
  {
    CandidatesCounted(taken, base, FirstFree(taken, base));
  }
}
