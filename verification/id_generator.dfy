/** The sequence-id generator `createBook` consults before saving a new book. */
module IdGenerator {
  import opened UniqueIds

  /**
   * The sequence-id generator: format the counter, advance it, and try again while
   * the store already holds the candidate. Returns the first free candidate and the
   * advanced counter.
   */
  method CreateUniqueId(taken: set<string>, counter: nat) returns (id: string, next: nat)
    ensures counter < next
    ensures id == FormatId(next - 1) && id !in taken
    ensures forall n :: counter <= n < next - 1 ==> FormatId(n) in taken
  {
    id := FormatId(counter);
    next := counter + 1;
    while id in taken
      invariant counter < next && id == FormatId(next - 1)
      invariant forall n :: counter <= n < next - 1 ==> FormatId(n) in taken
      decreases |taken| - (next - 1 - counter)
    {
      CandidatesBound(taken, counter, next);
      id := FormatId(next);
      next := next + 1;
    }
  }
}
