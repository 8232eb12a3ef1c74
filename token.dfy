/**
 * The slice of the Solana runtime and the SPL token program that the escrow
 * program relies on: fixed-width integers, public keys, and a token transfer
 * seen as a checked move of balance between two token accounts.
 */
module Token {
  import opened Results

  const U8_LIMIT: int := 0x100
  const U64_LIMIT: int := 0x1_0000_0000_0000_0000
  const U128_LIMIT: int := 0x1_0000_0000_0000_0000_0000_0000_0000_0000

  /** Rust `u8`. */
  type U8 = x: int | 0 <= x < U8_LIMIT
  /** Rust `u64`. */
  type U64 = x: int | 0 <= x < U64_LIMIT

  const PUBKEY_BYTES: nat := 32

  /** A 32-byte Solana public key (also the address of a token account). */
  type Pubkey = k: seq<U8> | |k| == PUBKEY_BYTES witness seq(PUBKEY_BYTES, _ => 0)

  /** Token balances of all token accounts of one mint, keyed by account address. */
  type Balances = map<Pubkey, U64>

  /** The SPL token program's failures that a plain transfer can report. */
  datatype TokenError = UninitializedAccount | InsufficientFunds | Overflow

  /**
   * SPL `transfer` of `amount` from token account `from` to token account `to`:
   * the source must hold at least `amount`, a transfer to the same account
   * changes nothing, and the destination's balance must stay within u64.
   */
  function SplTransfer(bal: Balances, from: Pubkey, to: Pubkey, amount: U64): (r: Result<Balances, TokenError>)
    ensures r.Ok? <==> from in bal && to in bal && amount <= bal[from]
                       && (from == to || bal[to] + amount < U64_LIMIT)
    ensures r.Ok? ==> r.value.Keys == bal.Keys
    ensures r.Ok? ==> forall a :: a in bal && a != from && a != to ==> r.value[a] == bal[a]
    ensures r.Ok? && from != to ==> r.value[from] == bal[from] - amount && r.value[to] == bal[to] + amount
    ensures r.Ok? && from == to ==> r.value == bal
  {
    if from !in bal || to !in bal then Err(UninitializedAccount)
    else if bal[from] < amount then Err(InsufficientFunds)
    else if from == to then Ok(bal)
    else if bal[to] + amount >= U64_LIMIT then Err(Overflow)
    else
      var moved: Balances := bal[from := bal[from] - amount][to := bal[to] + amount];
      Ok(moved)
  }

  /** The sum of the balances of the accounts in `keys`. */
  ghost function SumOver(bal: map<Pubkey, int>, keys: set<Pubkey>): int
    requires keys <= bal.Keys
    decreases keys
  {
    if keys == {} then 0
    else
      var k :| k in keys;
      bal[k] + SumOver(bal, keys - {k})
  }

  /** The mint's circulating supply: every token held by any account. */
  ghost function Supply(bal: map<Pubkey, int>): int {
    SumOver(bal, bal.Keys)
  }

  /** Any account of `keys` can be taken out of the sum first. */
  lemma {:induction false} SumOverRemove(bal: map<Pubkey, int>, keys: set<Pubkey>, y: Pubkey)
    requires keys <= bal.Keys && y in keys
    ensures SumOver(bal, keys) == bal[y] + SumOver(bal, keys - {y})
    decreases keys
  {
    var x :| x in keys && SumOver(bal, keys) == bal[x] + SumOver(bal, keys - {x});
    if x != y {
      SumOverRemove(bal, keys - {x}, y);
      SumOverRemove(bal, keys - {y}, x);
      assert keys - {x} - {y} == keys - {y} - {x};
    }
  }

  /** Two maps that agree on `keys` have the same sum over `keys`. */
  lemma {:induction false} SumOverAgree(b1: map<Pubkey, int>, b2: map<Pubkey, int>, keys: set<Pubkey>)
    requires keys <= b1.Keys && keys <= b2.Keys
    requires forall a :: a in keys ==> b1[a] == b2[a]
    ensures SumOver(b1, keys) == SumOver(b2, keys)
    decreases keys
  {
    if keys != {} {
      var y :| y in keys;
      SumOverRemove(b1, keys, y);
      SumOverRemove(b2, keys, y);
      SumOverAgree(b1, b2, keys - {y});
    }
  }

  /** Changing one balance changes the supply by exactly the difference. */
  lemma SupplyUpdate(bal: map<Pubkey, int>, k: Pubkey, v: int)
    requires k in bal
    ensures Supply(bal[k := v]) == Supply(bal) - bal[k] + v
  {
    var bal' := bal[k := v];
    assert bal'.Keys == bal.Keys;
    SumOverRemove(bal, bal.Keys, k);
    SumOverRemove(bal', bal.Keys, k);
    SumOverAgree(bal, bal', bal.Keys - {k});
  }

  /** A transfer moves tokens between accounts: it neither mints nor burns. */
  lemma TransferConservesSupply(bal: Balances, from: Pubkey, to: Pubkey, amount: U64)
    requires SplTransfer(bal, from, to, amount).Ok?
    ensures Supply(SplTransfer(bal, from, to, amount).value) == Supply(bal)
  {
    if from != to {
      var mid := bal[from := bal[from] - amount];
      SupplyUpdate(bal, from, bal[from] - amount);
      SupplyUpdate(mid, to, bal[to] + amount);
    }
  }

  /** The token balances of one mint, which instructions change in place. */
  class TokenLedger {
    var balances: Balances

    constructor (initial: Balances)
      ensures balances == initial
    {
      balances := initial;
    }

    /** A token-program transfer: on success the balances move, on failure nothing changes. */
    method Transfer(from: Pubkey, to: Pubkey, amount: U64) returns (r: Result<(), TokenError>)
      modifies this
      ensures var t := SplTransfer(old(balances), from, to, amount);
              (t.Ok? ==> r == Ok(()) && balances == t.value)
              && (t.Err? ==> r == Err(t.error) && balances == old(balances))
    {
      var t := SplTransfer(balances, from, to, amount);
      if t.Ok? {
        balances := t.value;
        r := Ok(());
      } else {
        r := Err(t.error);
      }
    }
  }
}
