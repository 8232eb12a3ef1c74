/**
 * What `close` and `deposit` guarantee, stated over their specifications:
 * the order of the checks, the two `u8` sum semantics, who receives what,
 * that no token is created or destroyed, and that nothing stops a second
 * `close`.
 */
module EscrowProperties {
  import opened Results
  import opened Token
  import opened EscrowAccount
  import opened Shares
  import opened EscrowProgram

  /**
   * Once every account loads, the authority check comes first: a wrong
   * signer gets `Unauthorized` whatever the winners and shares are.
   */
  lemma CloseChecksAuthorityFirst(escrow: Escrow, bal: Balances, signer: Pubkey, winners: seq<Pubkey>,
                                  shares: seq<U8>, vault: Pubkey, accounts: seq<Pubkey>, mode: OverflowMode)
    requires vault in bal && AllLoaded(bal, accounts)
    ensures CloseSpec(escrow, bal, signer, winners, shares, vault, accounts, mode) == Err(Program(Unauthorized))
            <==> signer != escrow.authority
  {
    if signer == escrow.authority && ValidateClose(escrow, signer, winners, shares, mode).Ok? {
      PayPrefixFaults(bal, vault, accounts, Payouts(bal[vault], shares), |shares|);
    }
  }

  /** The payout loop fails only by a panic or a refused transfer, never with an `EscrowError`. */
  lemma {:induction false} PayPrefixFaults(bal: Balances, vault: Pubkey, accounts: seq<Pubkey>, amounts: seq<U64>, n: nat)
    requires n <= |amounts|
    ensures var r := PayPrefix(bal, vault, accounts, amounts, n);
            r.Err? ==> r.error == Panicked(IndexOutOfBounds) || r.error.TokenFailed?
  {
    if n > 0 {
      PayPrefixFaults(bal, vault, accounts, amounts, n - 1);
    }
  }

  /** Once every account loads, the authority may not pay out with a winner list and a share list of different lengths. */
  lemma CloseRejectsLengthMismatch(escrow: Escrow, bal: Balances, winners: seq<Pubkey>, shares: seq<U8>,
                                   vault: Pubkey, accounts: seq<Pubkey>, mode: OverflowMode)
    requires vault in bal && AllLoaded(bal, accounts)
    requires |winners| != |shares|
    ensures CloseSpec(escrow, bal, escrow.authority, winners, shares, vault, accounts, mode) == Err(Program(InvalidShares))
  {
  }

  /**
   * When the authority signs with as many shares as winners, and overflow
   * checks are on, shares whose true sum exceeds 255 make `close`
   * panic, any other sum than 100 is `InvalidShares`, and only a true sum of
   * exactly 100 passes validation.
   */
  lemma CloseShareSumChecked(escrow: Escrow, winners: seq<Pubkey>, shares: seq<U8>)
    requires |winners| == |shares|
    ensures var v := ValidateClose(escrow, escrow.authority, winners, shares, Checked);
            && (Sum(shares) >= U8_LIMIT ==> v == Err(Panicked(ArithmeticOverflow)))
            && (Sum(shares) < U8_LIMIT && Sum(shares) != 100 ==> v == Err(Program(InvalidShares)))
            && (v.Ok? <==> Sum(shares) == 100)
  {
    CheckedSumExact(shares);
  }

  /**
   * When the authority signs with as many shares as winners, and overflow
   * checks are off, the sum never panics, and validation passes
   * exactly when the true sum is 100 modulo 256: shares adding up to 356 or
   * 612 are accepted.
   */
  lemma CloseShareSumWrapping(escrow: Escrow, winners: seq<Pubkey>, shares: seq<U8>)
    requires |winners| == |shares|
    ensures var v := ValidateClose(escrow, escrow.authority, winners, shares, Wrapping);
            && (v.Ok? <==> Sum(shares) % U8_LIMIT == 100)
            && (v.Err? ==> v == Err(Program(InvalidShares)))
  {
    WrappingSumModular(shares);
  }

  /**
   * The wrap-around hazard: shares [200, 156] pass validation, and the first
   * winner is then owed twice the balance, so (for a balance above 0, where
   * the amount owed is not 0, and below 2^63, where the `u64` cast does not
   * cut it) the first transfer is refused and the whole instruction aborts.
   */
  lemma WrappingOverfullCloseAborts(escrow: Escrow, bal: Balances, winners: seq<Pubkey>, vault: Pubkey,
                                    accounts: seq<Pubkey>)
    requires vault in bal && AllLoaded(bal, accounts)
    requires |winners| == 2 && |accounts| >= 1
    requires 0 < bal[vault] && 2 * bal[vault] < U64_LIMIT
    ensures ValidateClose(escrow, escrow.authority, winners, [200, 156], Wrapping).Ok?
    ensures Payouts(bal[vault], [200, 156])[0] == 2 * bal[vault]
    ensures CloseSpec(escrow, bal, escrow.authority, winners, [200, 156], vault, accounts, Wrapping)
            == Err(TokenFailed(InsufficientFunds))
  {
    WrappingAcceptsOverfullShares();
    var b := bal[vault];
    var pay := Payouts(b, [200, 156]);
    assert Product(b, 200) / 100 == 2 * b;
    assert pay[0] == 2 * b;
    assert PayPrefix(bal, vault, accounts, pay, 1) == Err(TokenFailed(InsufficientFunds));
    PayPrefixFailureSticks(bal, vault, accounts, pay, 1, 2);
  }

  /** `winners[i]` itself is never used: the outcome depends on the winner list only through its length. */
  lemma CloseIgnoresWinnerKeys(escrow: Escrow, bal: Balances, signer: Pubkey, w1: seq<Pubkey>, w2: seq<Pubkey>,
                               shares: seq<U8>, vault: Pubkey, accounts: seq<Pubkey>, mode: OverflowMode)
    requires |w1| == |w2|
    ensures CloseSpec(escrow, bal, signer, w1, shares, vault, accounts, mode)
            == CloseSpec(escrow, bal, signer, w2, shares, vault, accounts, mode)
  {
  }

  /** The loop indexes `winner_token_accounts[i]` for every winner: with fewer accounts, the payout loop cannot complete. */
  lemma {:induction false} PayPrefixNeedsAccounts(bal: Balances, vault: Pubkey, accounts: seq<Pubkey>,
                                                  amounts: seq<U64>, n: nat)
    requires |accounts| < n <= |amounts|
    ensures PayPrefix(bal, vault, accounts, amounts, n).Err?
  {
    var k := |accounts| + 1;
    if PayPrefix(bal, vault, accounts, amounts, k - 1).Ok? {
      assert PayPrefix(bal, vault, accounts, amounts, k) == Err(Panicked(IndexOutOfBounds));
    } else {
      PayPrefixFailureSticks(bal, vault, accounts, amounts, k - 1, k);
    }
    PayPrefixFailureSticks(bal, vault, accounts, amounts, k, n);
  }

  /**
   * `close` with fewer winner token accounts than winners never succeeds, and
   * neither does one with fewer winner token accounts than shares.
   */
  lemma CloseNeedsWinnerAccounts(escrow: Escrow, bal: Balances, signer: Pubkey, winners: seq<Pubkey>,
                                 shares: seq<U8>, vault: Pubkey, accounts: seq<Pubkey>, mode: OverflowMode)
    requires |accounts| < |winners| || |accounts| < |shares|
    ensures CloseSpec(escrow, bal, signer, winners, shares, vault, accounts, mode).Err?
  {
    if vault in bal && AllLoaded(bal, accounts) && ValidateClose(escrow, signer, winners, shares, mode).Ok? {
      PayPrefixNeedsAccounts(bal, vault, accounts, Payouts(bal[vault], shares), |shares|);
    }
  }

  /** What the first `n` rounds credit to account `a`. */
  function Received(a: Pubkey, accounts: seq<Pubkey>, amounts: seq<int>, n: nat): int
    requires n <= |amounts| && n <= |accounts|
  {
    if n == 0 then 0
    else Received(a, accounts, amounts, n - 1) + (if accounts[n - 1] == a then amounts[n - 1] else 0)
  }

  /** What the first `n` rounds take out of `vault` (a round paying `vault` itself moves nothing). */
  function Sent(vault: Pubkey, accounts: seq<Pubkey>, amounts: seq<int>, n: nat): int
    requires n <= |amounts| && n <= |accounts|
  {
    if n == 0 then 0
    else Sent(vault, accounts, amounts, n - 1) + (if accounts[n - 1] != vault then amounts[n - 1] else 0)
  }

  /** No account other than `vault` would pass u64 after being credited its winnings. */
  ghost predicate CreditsFit(bal: Balances, vault: Pubkey, accounts: seq<Pubkey>, amounts: seq<U64>, n: nat)
    requires n <= |amounts| && n <= |accounts|
  {
    forall a :: a in bal && a != vault ==> bal[a] + Received(a, accounts, amounts, n) < U64_LIMIT
  }

  lemma {:induction false} SentAtMostPaid(vault: Pubkey, accounts: seq<Pubkey>, amounts: seq<U64>, n: nat)
    requires n <= |amounts| && n <= |accounts|
    ensures 0 <= Sent(vault, accounts, amounts, n) <= Sum(amounts[..n])
    ensures (forall i :: 0 <= i < n ==> accounts[i] != vault) ==> Sent(vault, accounts, amounts, n) == Sum(amounts[..n])
  {
    if n > 0 {
      SentAtMostPaid(vault, accounts, amounts, n - 1);
      assert amounts[..n][..n - 1] == amounts[..n - 1];
    }
  }

  lemma {:induction false} ReceivedGrows(a: Pubkey, accounts: seq<Pubkey>, amounts: seq<U64>, k: nat, n: nat)
    requires k <= n <= |amounts| && n <= |accounts|
    ensures 0 <= Received(a, accounts, amounts, k) <= Received(a, accounts, amounts, n)
    decreases n
  {
    if k < n {
      ReceivedGrows(a, accounts, amounts, k, n - 1);
    } else if k > 0 {
      ReceivedGrows(a, accounts, amounts, k - 1, k - 1);
    }
  }

  /**
   * When the vault holds enough for all `n` rounds and no credited account
   * overflows, the loop completes: the vault loses exactly what it sent to
   * other accounts and every other account gains exactly what it received.
   */
  lemma {:induction false} PayPrefixEffect(bal: Balances, vault: Pubkey, accounts: seq<Pubkey>, amounts: seq<U64>, n: nat)
    requires n <= |amounts| && n <= |accounts|
    requires vault in bal && AllLoaded(bal, accounts)
    requires Sum(amounts[..n]) <= bal[vault]
    requires CreditsFit(bal, vault, accounts, amounts, n)
    ensures PayPrefix(bal, vault, accounts, amounts, n).Ok?
    ensures var b := PayPrefix(bal, vault, accounts, amounts, n).value;
            && b.Keys == bal.Keys
            && b[vault] == bal[vault] - Sent(vault, accounts, amounts, n)
            && forall a :: a in bal && a != vault ==> b[a] == bal[a] + Received(a, accounts, amounts, n)
  {
    if n > 0 {
      assert amounts[..n][..n - 1] == amounts[..n - 1];
      SumNonNegative(amounts[..n - 1]);
      forall a | a in bal && a != vault
        ensures bal[a] + Received(a, accounts, amounts, n - 1) < U64_LIMIT
      {
        ReceivedGrows(a, accounts, amounts, n - 1, n);
      }
      PayPrefixEffect(bal, vault, accounts, amounts, n - 1);
      SentAtMostPaid(vault, accounts, amounts, n - 1);
      var b := PayPrefix(bal, vault, accounts, amounts, n - 1).value;
      var to, x := accounts[n - 1], amounts[n - 1];
      assert to in bal;
      assert x <= b[vault];
      if to != vault {
        assert b[to] + x == bal[to] + Received(to, accounts, amounts, n);
      }
    }
  }

  /**
   * A `close` that passes validation with shares truly summing to 100, given
   * a winner token account per winner none of which would overflow, pays
   * winner `i` exactly `floor(balance * shares[i] / 100)` from the balance
   * read before the loop; the total paid is at most that balance, and when no
   * winner account is the escrow account itself, what stays behind is less
   * than the number of winners.
   */
  lemma ClosePaysShares(escrow: Escrow, bal: Balances, signer: Pubkey, winners: seq<Pubkey>, shares: seq<U8>,
                        vault: Pubkey, accounts: seq<Pubkey>, mode: OverflowMode)
    requires vault in bal && AllLoaded(bal, accounts)
    requires ValidateClose(escrow, signer, winners, shares, mode).Ok? && Sum(shares) == 100
    requires |shares| <= |accounts|
    requires CreditsFit(bal, vault, accounts, Payouts(bal[vault], shares), |shares|)
    ensures var r := CloseSpec(escrow, bal, signer, winners, shares, vault, accounts, mode);
            var pay := Payouts(bal[vault], shares);
            && r.Ok?
            && (forall i :: 0 <= i < |shares| ==> pay[i] == bal[vault] * shares[i] / 100)
            && Sum(pay) <= bal[vault]
            && r.value.Keys == bal.Keys
            && r.value[vault] == bal[vault] - Sent(vault, accounts, pay, |shares|)
            && (forall a :: a in bal && a != vault ==> r.value[a] == bal[a] + Received(a, accounts, pay, |shares|))
            && ((forall i :: 0 <= i < |shares| ==> accounts[i] != vault) ==>
                  r.value[vault] == bal[vault] - Sum(pay) < |shares|)
  {
    var pay := Payouts(bal[vault], shares);
    PayoutBounds(bal[vault], shares);
    assert pay[..|shares|] == pay;
    PayPrefixEffect(bal, vault, accounts, pay, |shares|);
    SentAtMostPaid(vault, accounts, pay, |shares|);
  }

  /** The payout loop keeps the mint's supply: tokens only move between accounts. */
  lemma {:induction false} PayPrefixConservesSupply(bal: Balances, vault: Pubkey, accounts: seq<Pubkey>,
                                                    amounts: seq<U64>, n: nat)
    requires n <= |amounts|
    requires PayPrefix(bal, vault, accounts, amounts, n).Ok?
    ensures Supply(PayPrefix(bal, vault, accounts, amounts, n).value) == Supply(bal)
    ensures PayPrefix(bal, vault, accounts, amounts, n).value.Keys == bal.Keys
  {
    if n > 0 {
      PayPrefixConservesSupply(bal, vault, accounts, amounts, n - 1);
      var b := PayPrefix(bal, vault, accounts, amounts, n - 1).value;
      TransferConservesSupply(b, vault, accounts[n - 1], amounts[n - 1]);
    }
  }

  /** A successful `close` neither creates nor destroys tokens and keeps every token account. */
  lemma CloseConservesSupply(escrow: Escrow, bal: Balances, signer: Pubkey, winners: seq<Pubkey>, shares: seq<U8>,
                             vault: Pubkey, accounts: seq<Pubkey>, mode: OverflowMode)
    requires CloseSpec(escrow, bal, signer, winners, shares, vault, accounts, mode).Ok?
    ensures var b := CloseSpec(escrow, bal, signer, winners, shares, vault, accounts, mode).value;
            Supply(b) == Supply(bal) && b.Keys == bal.Keys
  {
    PayPrefixConservesSupply(bal, vault, accounts, Payouts(bal[vault], shares), |shares|);
  }

  /**
   * `close` sets no "closed" flag and changes no escrow field: after a
   * successful `close`, the same call passes every check again and pays out
   * from what is left.
   */
  lemma CloseCanRunAgain(escrow: Escrow, bal: Balances, signer: Pubkey, winners: seq<Pubkey>, shares: seq<U8>,
                         vault: Pubkey, accounts: seq<Pubkey>, mode: OverflowMode)
    requires CloseSpec(escrow, bal, signer, winners, shares, vault, accounts, mode).Ok?
    ensures var b := CloseSpec(escrow, bal, signer, winners, shares, vault, accounts, mode).value;
            && vault in b && AllLoaded(b, accounts)
            && CloseSpec(escrow, b, signer, winners, shares, vault, accounts, mode)
               == PayPrefix(b, vault, accounts, Payouts(b[vault], shares), |shares|)
  {
    CloseConservesSupply(escrow, bal, signer, winners, shares, vault, accounts, mode);
  }

  /** A successful `deposit` neither creates nor destroys tokens. */
  lemma DepositConservesSupply(escrow: Escrow, bal: Balances, player: Pubkey, vault: Pubkey, amount: U64)
    requires DepositSpec(escrow, bal, player, vault, amount).Ok?
    ensures Supply(DepositSpec(escrow, bal, player, vault, amount).value) == Supply(bal)
  {
  }
}
