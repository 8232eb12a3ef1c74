/**
 * The arithmetic of `close`: the `u8` sum of the shares that the instruction
 * checks against 100, and each winner's payout
 * `((balance as u128) * (share as u128) / 100) as u64`.
 */
module Shares {
  import opened Results
  import opened Token

  /**
   * What `u8` addition does on overflow. Rust panics when the crate is built
   * with overflow checks (Anchor's workspace template turns them on for
   * release builds) and wraps modulo 256 when it is built without them.
   */
  datatype OverflowMode = Checked | Wrapping

  /** The exact sum of `s`, added left to right. */
  function Sum(s: seq<int>): int
  {
    if s == [] then 0 else Sum(s[..|s| - 1]) + s[|s| - 1]
  }

  /** One `u8` addition; `None` is the "attempt to add with overflow" panic. */
  function AddU8(a: U8, b: U8, mode: OverflowMode): Option<U8>
  {
    match mode
    case Checked => if a + b < U8_LIMIT then Some(a + b) else None
    case Wrapping => Some((a + b) % U8_LIMIT)
  }

  /** `shares.iter().sum::<u8>()`: a left fold of `u8` additions starting at 0. */
  function SumU8(shares: seq<U8>, mode: OverflowMode): Option<U8>
  {
    if shares == [] then Some(0)
    else
      match SumU8(shares[..|shares| - 1], mode)
      case None => None
      case Some(acc) => AddU8(acc, shares[|shares| - 1], mode)
  }

  /** With overflow checks the sum panics exactly when the true sum exceeds 255, and is exact otherwise. */
  lemma {:induction false} CheckedSumExact(shares: seq<U8>)
    ensures SumU8(shares, Checked) == if Sum(shares) < U8_LIMIT then Some(Sum(shares)) else None
  {
    if shares != [] {
      var init := shares[..|shares| - 1];
      CheckedSumExact(init);
      SumNonNegative(init);
    }
  }

  /** Without overflow checks the sum is the true sum modulo 256 and never panics. */
  lemma {:induction false} WrappingSumModular(shares: seq<U8>)
    ensures SumU8(shares, Wrapping) == Some(Sum(shares) % U8_LIMIT)
  {
    if shares != [] {
      var init := shares[..|shares| - 1];
      WrappingSumModular(init);
      var a, b := Sum(init), shares[|shares| - 1];
      assert (a % U8_LIMIT + b) % U8_LIMIT == (a + b) % U8_LIMIT;
    }
  }

  lemma {:induction false} SumNonNegative(s: seq<int>)
    requires forall i :: 0 <= i < |s| ==> s[i] >= 0
    ensures Sum(s) >= 0
  {
    if s != [] {
      SumNonNegative(s[..|s| - 1]);
    }
  }

  /** Under wrap-around, shares that add up to 356 pass the "sum is 100" check. */
  lemma WrappingAcceptsOverfullShares()
    ensures SumU8([200, 156], Wrapping) == Some(100)
    ensures SumU8([200, 156], Checked) == None
    ensures Sum([200, 156]) == 356
  {
    assert [200, 156][..1] == [200];
    assert [200][..0] == [];
  }

  lemma MulMonotone(a: nat, b: nat, c: nat)
    requires b <= c
    ensures a * b <= a * c
  {
    assert a * c - a * b == a * (c - b);
  }

  lemma MulBound(balance: U64, share: U8)
    ensures 0 <= balance * share <= (U64_LIMIT - 1) * (U8_LIMIT - 1)
  {
    MulMonotone(balance, share, U8_LIMIT - 1);
    MulMonotone(U8_LIMIT - 1, balance, U64_LIMIT - 1);
  }

  lemma ScaledAtMostBalance(balance: U64, share: U8)
    ensures share <= 100 ==> balance * share <= balance * 100
  {
    if share <= 100 {
      assert balance * share <= balance * 100;
    }
  }

  /** `(balance as u128).checked_mul(share as u128)`: the product never reaches 2^128, so the `unwrap` cannot panic. */
  function Product(balance: U64, share: U8): (p: nat)
    ensures p < U128_LIMIT
  {
    MulBound(balance, share);
    balance * share
  }

  /**
   * Winner's payout for one share: the `u128` product divided by 100 (the
   * divisor is non-zero, so that `unwrap` cannot panic either), then cast to
   * `u64`, which keeps the low 64 bits. For a share of at most 100 the cast
   * loses nothing and the payout is at most the balance.
   */
  function ShareAmount(balance: U64, share: U8): (r: U64)
    ensures share <= 100 ==> r == balance * share / 100 && r <= balance
  {
    ScaledAtMostBalance(balance, share);
    (Product(balance, share) / 100) % U64_LIMIT
  }

  /** What `close` pays each winner, in order: `ShareAmount(balance, shares[i])`. */
  function Payouts(balance: U64, shares: seq<U8>): seq<U64>
  {
    seq(|shares|, i requires 0 <= i < |shares| => ShareAmount(balance, shares[i]))
  }

  /** What the division by 100 discards for each share. */
  function Remainders(balance: U64, shares: seq<U8>): (r: seq<int>)
    ensures |r| == |shares|
  {
    seq(|shares|, i requires 0 <= i < |shares| => (balance * shares[i]) % 100)
  }

  /** Payouts and remainders together account for the whole balance times the sum of the shares. */
  lemma {:induction false} PayoutDecomposition(balance: U64, shares: seq<U8>)
    requires forall i :: 0 <= i < |shares| ==> shares[i] <= 100
    ensures 100 * Sum(Payouts(balance, shares)) + Sum(Remainders(balance, shares)) == balance * Sum(shares)
  {
    if shares != [] {
      var n := |shares|;
      var init, x := shares[..n - 1], shares[n - 1];
      var pay, rem := Payouts(balance, shares), Remainders(balance, shares);
      PayoutDecomposition(balance, init);
      assert pay[..n - 1] == Payouts(balance, init);
      assert rem[..n - 1] == Remainders(balance, init);
      var p := balance * x;
      assert pay[n - 1] == p / 100;
      assert rem[n - 1] == p % 100;
      assert Sum(pay) == Sum(Payouts(balance, init)) + p / 100;
      assert Sum(rem) == Sum(Remainders(balance, init)) + p % 100;
      Distribute(balance, Sum(init), x);
    }
  }

  lemma Distribute(b: int, a: int, x: int)
    ensures b * (a + x) == b * a + b * x
  {
  }

  lemma {:induction false} SumAtMost(s: seq<int>, c: int)
    requires forall i :: 0 <= i < |s| ==> s[i] <= c
    ensures Sum(s) <= c * |s|
  {
    if s != [] {
      SumAtMost(s[..|s| - 1], c);
    }
  }

  lemma {:induction false} ShareAtMostSum(s: seq<U8>, i: nat)
    requires i < |s|
    ensures s[i] <= Sum(s)
  {
    var init := s[..|s| - 1];
    SumNonNegative(init);
    if i < |s| - 1 {
      ShareAtMostSum(init, i);
    }
  }

  /**
   * When the shares add up to exactly 100, the payouts never exceed the
   * balance read before the loop, and what stays behind in the escrow
   * account (the rounding dust) is less than the number of winners.
   */
  lemma PayoutBounds(balance: U64, shares: seq<U8>)
    requires Sum(shares) == 100
    ensures forall i :: 0 <= i < |shares| ==> shares[i] <= 100
    ensures Sum(Payouts(balance, shares)) <= balance
    ensures balance - Sum(Payouts(balance, shares)) < |shares|
  {
    forall i | 0 <= i < |shares|
      ensures shares[i] <= 100
    {
      ShareAtMostSum(shares, i);
    }
    PayoutDecomposition(balance, shares);
    var rem := Remainders(balance, shares);
    SumAtMost(rem, 99);
    SumNonNegative(rem);
  }
}
