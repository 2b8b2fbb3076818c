/** The two facts about division that the address and entry layouts rest on. */
module DivMod {

  /** Quotient and remainder are the only numbers that split `x` by `m`. */
  lemma {:induction false} Unique(x: nat, m: nat, q: nat, r: nat)
    requires r < m && x == m * q + r
    ensures x / m == q && x % m == r
  {
    var d := q - x / m;
    assert m * d == x % m - r;
  }

  /** A remainder by a multiple of 512 has the same remainder by 512. */
  lemma {:induction false} TruncateThenMod(n: nat)
    ensures n % 0x1_0000 % 512 == n % 512
  {
  }
}
