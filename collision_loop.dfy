/**
 * The collision loop of `shortenURL` exactly as it is written in main.go:
 * `for _, exists := urlStore[shortURL]; exists; { ... }`. The init statement
 * looks the base code up once; the body never assigns `exists`, so the guard
 * keeps the value it had before the first round.
 *
 * The loop is modelled as a state and one step, run for at most `fuel`
 * rounds, which is enough to show that once it is entered it never leaves.
 */
module CollisionLoop {
  import Decimal
  import opened Codes
  import opened Shortener

  /** The loop's variables; `found` is the loop's `exists`. */
  datatype LoopState = LoopState(shortURL: string, counter: nat, found: bool)

  /** The init statement: shortURL is the base, counter is 1, `found` is read once. */
  function Enter(taken: set<string>, base: string): (s: LoopState)
    ensures s.counter == 1 && s.shortURL == Candidate(base, s.counter - 1)
    ensures s.found <==> s.shortURL in taken
  {
    LoopState(base, 1, base in taken)
  }

  /** One round of the body as written: the candidate and counter move on, `found` does not. */
  function Step(base: string, s: LoopState): (t: LoopState)
    ensures t.found == s.found && t.counter == s.counter + 1
    ensures s.counter >= 1 && s.shortURL == Candidate(base, s.counter - 1) ==>
      t.shortURL == Candidate(base, t.counter - 1)
  {
    LoopState(base + Decimal.Format(s.counter), s.counter + 1, s.found)
  }

  /** At most `fuel` rounds of the loop, stopping early if its guard is false. */
  function Run(base: string, s: LoopState, fuel: nat): (t: LoopState)
    ensures t.found == s.found
    ensures t.counter == if s.found then s.counter + fuel else s.counter
    decreases fuel
  {
    if !s.found || fuel == 0 then s else Run(base, Step(base, s), fuel - 1)
  }

  lemma {:induction false} RunKeepsGuard(base: string, s: LoopState, fuel: nat)
    requires s.counter >= 1 && s.shortURL == Candidate(base, s.counter - 1)
    ensures var t := Run(base, s, fuel);
      && t.found == s.found
      && (s.found ==> t.counter == s.counter + fuel && t.shortURL == Candidate(base, t.counter - 1))
      && (!s.found ==> t == s)
    decreases fuel
  {
    if s.found && fuel > 0 {
      RunKeepsGuard(base, Step(base, s), fuel - 1);
    }
  }

  /**
   * When the base code is taken, the loop as written is still running after
   * any number of rounds, although candidate 1 onwards may be free: it has
   * walked to candidate `fuel` and its guard is still true.
   */
  lemma AsWrittenNeverExits(taken: set<string>, base: string, fuel: nat)
    requires base in taken
    ensures var t := Run(base, Enter(taken, base), fuel);
      t.found && t.shortURL == Candidate(base, fuel)
  {
    RunKeepsGuard(base, Enter(taken, base), fuel);
  }

  /**
   * When the loop as written does stop, it stops without a single round and
   * leaves the base code, which is then the first free candidate as well.
   */
  lemma AsWrittenExitsOnlyOnFreeBase(taken: set<string>, base: string, fuel: nat)
    requires !Run(base, Enter(taken, base), fuel).found
    ensures base !in taken
    ensures Run(base, Enter(taken, base), fuel).shortURL == base
    ensures Candidate(base, FirstFree(taken, base)) == base
  {
  }

  /**
   * An input that shows the defect: a store, valid in every respect, whose
   * only record holds another URL under the base code of `longURL`'s digest.
   * Shortening `longURL` reaches the collision loop, which never exits,
   * whereas the loop that re-checks the store stops at candidate 1.
   */
  lemma HangsOnTakenBase(d: Digest, longURL: string, other: string, fuel: nat)
    requires longURL != other
    ensures var base := BaseCode(d);
      var store := map[base := URLMap(base, other)];
      && Invariant(store)
      && !Shortened(store, longURL)
      && Run(base, Enter(store.Keys, base), fuel).found
      && ShortenSpec(store, true, d, longURL).result == Ok(base + "1")
  {
  }
}
