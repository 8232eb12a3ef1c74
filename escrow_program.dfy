/**
 * The escrow program's three instructions. `initialize` writes the escrow
 * record, `deposit` moves exactly the buy-in from a player's token account
 * into the escrow's token account, and `close` checks its caller and the
 * winners' shares, then pays every winner its share of the escrow balance.
 *
 * A Solana instruction is atomic: when any step fails (an error returned
 * through `require!` or `?`, or a panic) none of its effects persist. Each
 * instruction is specified by a function from the accounts it is given to a
 * `Result`, and implemented by a method that changes the token ledger in
 * place and rolls it back on failure.
 */
module EscrowProgram {
  import opened Results
  import opened Token
  import opened EscrowAccount
  import opened Shares

  /** `EscrowError`: the errors the program itself returns. */
  datatype EscrowError = InvalidAmount | Unauthorized | InvalidShares

  /** The Rust panics `close` can hit. */
  datatype Panic = ArithmeticOverflow | IndexOutOfBounds

  /** Why an instruction aborted. */
  datatype Fault =
    | AccountNotInitialized        // Anchor could not load a token account named by the instruction
    | Program(error: EscrowError)  // a `require!` failed
    | Panicked(panic: Panic)       // the program panicked
    | TokenFailed(token: TokenError)  // the token program refused a transfer

  /** The escrow account, a program-derived account whose fields `initialize` writes. */
  class EscrowState {
    var authority: Pubkey
    var tokenMint: Pubkey
    var buyInAmount: U64

    /** The record as stored on chain. */
    function Record(): Escrow
      reads this
    {
      Escrow(authority, tokenMint, buyInAmount)
    }

    /**
     * `initialize`: Anchor creates the account (`init`, paid for by the
     * signer), then the instruction stores the buy-in, the signer's key as
     * the authority and the mint's key, and nothing else.
     */
    constructor Initialize(signer: Pubkey, mint: Pubkey, amount: U64)
      ensures Record() == Escrow(signer, mint, amount)
    {
      buyInAmount := amount;
      authority := signer;
      tokenMint := mint;
    }
  }

  /** `deposit(amount)` on ledger `bal`: the player's token account pays `amount` into the escrow's token account `vault`. */
  function DepositSpec(escrow: Escrow, bal: Balances, player: Pubkey, vault: Pubkey, amount: U64): (r: Result<Balances, Fault>)
    ensures r.Ok? ==> amount == escrow.buyInAmount
    ensures r.Ok? ==> Supply(r.value) == Supply(bal)
  {
    if player !in bal || vault !in bal then Err(AccountNotInitialized)
    else if amount != escrow.buyInAmount then Err(Program(InvalidAmount))
    else
      match SplTransfer(bal, player, vault, amount)
      case Ok(b) => TransferConservesSupply(bal, player, vault, amount); Ok(b)
      case Err(e) => Err(TokenFailed(e))
  }

  /** Any amount other than the stored buy-in is refused with `InvalidAmount` before any token moves. */
  lemma DepositRejectsOtherAmounts(escrow: Escrow, bal: Balances, player: Pubkey, vault: Pubkey, amount: U64)
    requires player in bal && vault in bal
    ensures DepositSpec(escrow, bal, player, vault, amount) == Err(Program(InvalidAmount))
            <==> amount != escrow.buyInAmount
  {
  }

  /**
   * Between two distinct token accounts, a deposit succeeds exactly when the
   * player holds the buy-in and the escrow account can take it, and then
   * moves exactly `amount` from the player to the escrow account and changes
   * no other balance.
   */
  lemma DepositMovesBuyIn(escrow: Escrow, bal: Balances, player: Pubkey, vault: Pubkey)
    requires player in bal && vault in bal && player != vault
    ensures var r := DepositSpec(escrow, bal, player, vault, escrow.buyInAmount);
            var amount := escrow.buyInAmount;
            && (r.Ok? <==> amount <= bal[player] && bal[vault] + amount < U64_LIMIT)
            && (r.Ok? ==> && r.value[player] == bal[player] - amount
                          && r.value[vault] == bal[vault] + amount
                          && r.value.Keys == bal.Keys
                          && forall a :: a in bal && a != player && a != vault ==> r.value[a] == bal[a])
  {
  }

  /**
   * When the player's token account is the escrow's own, the deposit needs
   * only the buy-in to be held: the token program moves nothing, so no credit
   * can overflow, and every balance stays as it was.
   */
  lemma DepositIntoItself(escrow: Escrow, bal: Balances, vault: Pubkey)
    requires vault in bal
    ensures var r := DepositSpec(escrow, bal, vault, vault, escrow.buyInAmount);
            && (r.Ok? <==> escrow.buyInAmount <= bal[vault])
            && (r.Ok? ==> r.value == bal)
  {
  }

  /** `deposit`, changing the token ledger in place. */
  method Deposit(escrow: EscrowState, ledger: TokenLedger, player: Pubkey, vault: Pubkey, amount: U64)
    returns (r: Result<(), Fault>)
    modifies ledger
    ensures escrow.Record() == old(escrow.Record())
    ensures var spec := DepositSpec(escrow.Record(), old(ledger.balances), player, vault, amount);
            && (spec.Ok? ==> r == Ok(()) && ledger.balances == spec.value)
            && (spec.Err? ==> r == Err(spec.error) && ledger.balances == old(ledger.balances))
  {
    if player !in ledger.balances || vault !in ledger.balances {
      return Err(AccountNotInitialized);
    }
    if amount != escrow.buyInAmount {
      return Err(Program(InvalidAmount));
    }
    var t := ledger.Transfer(player, vault, amount);
    if t.Err? {
      return Err(TokenFailed(t.error));
    }
    r := Ok(());
  }

  /** Every token account named in `accounts` exists on the ledger. */
  predicate AllLoaded(bal: Balances, accounts: seq<Pubkey>)
  {
    forall i :: 0 <= i < |accounts| ==> accounts[i] in bal
  }

  /** The three `require!` checks of `close`, in source order. */
  function ValidateClose(escrow: Escrow, signer: Pubkey, winners: seq<Pubkey>, shares: seq<U8>, mode: OverflowMode)
    : Result<(), Fault>
  {
    if signer != escrow.authority then Err(Program(Unauthorized))
    else if |winners| != |shares| then Err(Program(InvalidShares))
    else
      match SumU8(shares, mode)
      case None => Err(Panicked(ArithmeticOverflow))
      case Some(total) => if total != 100 then Err(Program(InvalidShares)) else Ok(())
  }

  /**
   * The first `n` rounds of the payout loop: round `i` transfers `amounts[i]`
   * from `vault` to `accounts[i]`, panicking when there is no `accounts[i]`.
   * The first failure ends the loop.
   */
  function PayPrefix(bal: Balances, vault: Pubkey, accounts: seq<Pubkey>, amounts: seq<U64>, n: nat)
    : Result<Balances, Fault>
    requires n <= |amounts|
  {
    if n == 0 then Ok(bal)
    else
      match PayPrefix(bal, vault, accounts, amounts, n - 1)
      case Err(f) => Err(f)
      case Ok(b) =>
        if n - 1 >= |accounts| then Err(Panicked(IndexOutOfBounds))
        else
          match SplTransfer(b, vault, accounts[n - 1], amounts[n - 1])
          case Ok(b') => Ok(b')
          case Err(e) => Err(TokenFailed(e))
  }

  /**
   * `close(winners, shares)` on ledger `bal`, with `vault` the escrow's token
   * account and `accounts` the winner token accounts. The balance that every
   * share is computed from is read once, before the first transfer.
   */
  function CloseSpec(escrow: Escrow, bal: Balances, signer: Pubkey, winners: seq<Pubkey>, shares: seq<U8>,
                     vault: Pubkey, accounts: seq<Pubkey>, mode: OverflowMode): Result<Balances, Fault>
  {
    if vault !in bal || !AllLoaded(bal, accounts) then Err(AccountNotInitialized)
    else
      match ValidateClose(escrow, signer, winners, shares, mode)
      case Err(f) => Err(f)
      case Ok(_) => PayPrefix(bal, vault, accounts, Payouts(bal[vault], shares), |shares|)
  }

  /** Once a round of the payout loop has failed, the loop's outcome is that failure. */
  lemma {:induction false} PayPrefixFailureSticks(bal: Balances, vault: Pubkey, accounts: seq<Pubkey>,
                                                  amounts: seq<U64>, k: nat, n: nat)
    requires k <= n <= |amounts|
    requires PayPrefix(bal, vault, accounts, amounts, k).Err?
    ensures PayPrefix(bal, vault, accounts, amounts, n) == PayPrefix(bal, vault, accounts, amounts, k)
    decreases n
  {
    if k < n {
      PayPrefixFailureSticks(bal, vault, accounts, amounts, k, n - 1);
    }
  }

  /** `close`, changing the token ledger in place, one transfer per winner. */
  method Close(escrow: EscrowState, ledger: TokenLedger, signer: Pubkey, winners: seq<Pubkey>, shares: seq<U8>,
               vault: Pubkey, accounts: seq<Pubkey>, mode: OverflowMode)
    returns (r: Result<(), Fault>)
    modifies ledger
    ensures escrow.Record() == old(escrow.Record())
    ensures var spec := CloseSpec(escrow.Record(), old(ledger.balances), signer, winners, shares, vault, accounts, mode);
            && (spec.Ok? ==> r == Ok(()) && ledger.balances == spec.value)
            && (spec.Err? ==> r == Err(spec.error) && ledger.balances == old(ledger.balances))
  {
    if vault !in ledger.balances || !AllLoaded(ledger.balances, accounts) {
      return Err(AccountNotInitialized);
    }
    if signer != escrow.authority {
      return Err(Program(Unauthorized));
    }
    if |winners| != |shares| {
      return Err(Program(InvalidShares));
    }
    var total := SumU8(shares, mode);
    if total.None? {
      return Err(Panicked(ArithmeticOverflow));
    }
    if total.value != 100 {
      return Err(Program(InvalidShares));
    }
    assert ValidateClose(escrow.Record(), signer, winners, shares, mode).Ok?;
    r := PayWinners(ledger, vault, accounts, shares);
  }

  /**
   * The payout loop of `close`: the escrow balance is read once, then winner
   * `i`'s token account receives `ShareAmount(balance, shares[i])`. The first
   * failure restores the balances the loop started from.
   */
  method PayWinners(ledger: TokenLedger, vault: Pubkey, accounts: seq<Pubkey>, shares: seq<U8>)
    returns (r: Result<(), Fault>)
    requires vault in ledger.balances
    modifies ledger
    ensures var spec := PayPrefix(old(ledger.balances), vault, accounts, Payouts(old(ledger.balances)[vault], shares), |shares|);
            && (spec.Ok? ==> r == Ok(()) && ledger.balances == spec.value)
            && (spec.Err? ==> r == Err(spec.error) && ledger.balances == old(ledger.balances))
  {
    var balance := ledger.balances[vault];
    var snapshot := ledger.balances;
    ghost var amounts := Payouts(balance, shares);
    for i := 0 to |shares|
      invariant PayPrefix(snapshot, vault, accounts, amounts, i) == Ok(ledger.balances)
    {
      var share := ShareAmount(balance, shares[i]);
      if i >= |accounts| {
        PayPrefixFailureSticks(snapshot, vault, accounts, amounts, i + 1, |shares|);
        ledger.balances := snapshot;
        return Err(Panicked(IndexOutOfBounds));
      }
      var t := ledger.Transfer(vault, accounts[i], share);
      if t.Err? {
        PayPrefixFailureSticks(snapshot, vault, accounts, amounts, i + 1, |shares|);
        ledger.balances := snapshot;
        return Err(TokenFailed(t.error));
      }
      assert PayPrefix(snapshot, vault, accounts, amounts, i + 1) == Ok(ledger.balances);
    }
    r := Ok(());
  }
}
