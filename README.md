# Poker-table escrow and wallet-link bot, modelled in Dafny

This project models the two parts of the poker-table system whose behaviour
can be stated and checked:

* **The Solana escrow program** (`programs/solana_escrow/lib.rs`). One escrow
  record (`authority`, `token_mint`, `buy_in_amount`) and the token balances
  of one mint. `initialize` writes the record; `deposit` accepts exactly the
  buy-in and moves it into the escrow's token account; `close` checks the
  caller, checks the winners and shares, and pays winner `i`
  `floor(balance * shares[i] / 100)` in a loop, where `balance` is read once
  before the loop.
* **The Telegram bot's wallet-link challenge** (`bot/index.ts`). A map from
  user id to the pending challenge. `/link` overwrites the sender's entry.
  Every text message consults it. It is cleared only after signature
  recovery, the `wallet_links` upsert and the success reply have all
  succeeded.

Files and modules:

| file | module | contents |
|---|---|---|
| `results.dfy` | `Results` | `Result` and `Option` |
| `token.dfy` | `Token` | `u8`/`u64`, public keys, the SPL transfer as a checked balance move, token supply, `TokenLedger` |
| `escrow_account.dfy` | `EscrowAccount` | the `Escrow` record, `Escrow::LEN`, its Borsh layout |
| `shares.dfy` | `Shares` | the `u8` sum of the shares, the per-winner payout, payout bounds |
| `escrow_program.dfy` | `EscrowProgram` | the three instructions: specification functions and in-place methods |
| `escrow_properties.dfy` | `EscrowProperties` | what `deposit` and `close` guarantee |
| `nonce_text.dfy` | `NonceText` | the text of a challenge drawn from 32 random bytes |
| `wallet_link.dfy` | `WalletLink` | the bot state, the two handlers as functions and as `Bot` methods |
| `wallet_link_properties.dfy` | `WalletLinkProperties` | what the handlers guarantee |

How the model is built:

* Each instruction is a function from its accounts to a `Result`
  (`DepositSpec`, `CloseSpec`). A method (`Deposit`, `Close`) changes a
  `TokenLedger` in place and is proved to end in exactly that result. A
  Solana instruction is atomic, so on any failure the method restores the
  balances it started from. `Close` runs its checks, then `PayWinners`
  makes one transfer per winner, in a `for` loop whose invariant ties the
  ledger to the first `i` payout rounds (`PayPrefix`).
* Overflow in `shares.iter().sum::<u8>()` depends on the build profile,
  which is not part of this model. Both behaviours are modelled through an
  `OverflowMode` parameter. `Checked` panics on overflow. `Wrapping` adds
  modulo 256.
* `(balance as u128).checked_mul(share).unwrap().checked_div(100).unwrap() as u64`
  is modelled step by step. The product is proved to stay below 2^128. The
  `as u64` cast keeps the low 64 bits, and it truncates only for a share
  above 100, which only wrap-around lets through.
* The loop iterates over `winners` but never reads `winners[i]`: it pays
  `winner_token_accounts[i]`. `CloseIgnoresWinnerKeys` states this.
* Anchor loads every token account an instruction names before its body
  runs. A missing account is the `AccountNotInitialized` fault, raised
  before the program's own checks.
* The bot's outside calls are arguments of the handlers (`TextEffects`).
  `verifyMessage` is a function from (message, signature) to an optional
  address. The upsert, the success reply and the error reply each either
  succeed or fail. `/link` receives the 32 random bytes it draws.
* The challenge text is `randomBytes(32).toString('hex')`. `randomBytes`
  returns a `Uint8Array`, whose `toString` ignores its argument and joins the
  decimal values with commas. `NonceText.Render` models exactly that, and
  `ParseRender` shows that distinct draws give distinct challenges.
* `if (!userId)` and `if (!nonce)` test JavaScript truthiness. A user id of
  `0` is ignored like a missing one, and so is an empty stored challenge.

Where the code and the system's design description disagree, the model
follows the code:

* The design has the link step report `NoPendingChallenge`. The code silently
  ignores such a message.
* The design has a nonce consumed atomically with verification, leaving state
  unchanged on failure. In the code, a failed success reply leaves the link
  written and the challenge still pending (`FailureKeepsChallenge`).
* The code never compares the recovered address with anything
  (`RecoveredAddressNotChecked`).
* The design describes settlement with a pool cap, leaderboard updates and
  one-shot settlement. The escrow program's `close` has none of these: it
  can be called again (`CloseCanRunAgain`).

## Model

| member | source | states |
|---|---|---|
| `Token.SplTransfer` | programs/solana_escrow/lib.rs:27-36 | a token transfer succeeds exactly when both accounts exist, the source holds the amount and the destination stays within u64; it then debits the source and credits the destination by the amount (a self-transfer changes nothing) and leaves every other balance alone |
| `Token.TransferConservesSupply` | programs/solana_escrow/lib.rs:27-36 | a successful transfer neither mints nor burns: the sum of all balances is unchanged |
| `Token.TokenLedger.Transfer` | programs/solana_escrow/lib.rs:76 | the in-place transfer ends in the balances `SplTransfer` gives, or changes nothing and reports the token error |
| `EscrowAccount.SpaceHoldsRecord` | programs/solana_escrow/lib.rs:88 | the space `initialize` allocates, `8 + Escrow::LEN`, is exactly the discriminator plus the encoded record |
| `EscrowAccount.Encode` | programs/solana_escrow/lib.rs:125-134 | the Borsh encoding of an `Escrow` record is exactly `Escrow::LEN` = 32 + 32 + 8 bytes, authority first, then the mint |
| `EscrowAccount.Decode` | programs/solana_escrow/lib.rs:125-134 | account data decodes to a record exactly when it holds at least `LEN` bytes |
| `EscrowAccount.DecodeEncode` | programs/solana_escrow/lib.rs:125-134 | decoding an encoded record gives back that record |
| `EscrowAccount.EncodeDecode` | programs/solana_escrow/lib.rs:125-134 | every `LEN`-byte body is the encoding of the record it decodes to |
| `EscrowAccount.FromLittleEndianInverse` | programs/solana_escrow/lib.rs:129 | the 8-byte little-endian `u64` field reads back as the stored amount |
| `Shares.CheckedSumExact` | programs/solana_escrow/lib.rs:47-50 | with overflow checks, the `u8` sum of the shares panics exactly when the true sum exceeds 255 and equals the true sum otherwise |
| `Shares.WrappingSumModular` | programs/solana_escrow/lib.rs:47-50 | without overflow checks, the `u8` sum is the true sum modulo 256 |
| `Shares.WrappingAcceptsOverfullShares` | programs/solana_escrow/lib.rs:48 | shares [200, 156] (true sum 356) sum to 100 under wrap-around and panic under overflow checks |
| `Shares.Product` | programs/solana_escrow/lib.rs:57-59 | `balance * share` as u128 is below 2^128, so `checked_mul(...).unwrap()` cannot panic |
| `Shares.ShareAmount` | programs/solana_escrow/lib.rs:57-61 | for a share of at most 100 the payout is `floor(balance * share / 100)` with no truncation by the `as u64` cast, and at most the balance |
| `Shares.PayoutDecomposition` | programs/solana_escrow/lib.rs:53-61 | for shares each at most 100: 100 × total payouts + the discarded remainders = balance × sum of the shares |
| `Shares.PayoutBounds` | programs/solana_escrow/lib.rs:53-77 | when the shares sum to 100, every share is at most 100, the total paid is at most the balance and the balance minus the total is less than the number of winners |
| `EscrowProgram.EscrowState.Initialize` | programs/solana_escrow/lib.rs:10-19 | `initialize` sets buy-in, authority and mint to the amount, the signer's key and the mint's key, and nothing else |
| `EscrowProgram.DepositSpec` | programs/solana_escrow/lib.rs:21-39 | a successful deposit had exactly the stored buy-in as amount and leaves the token supply unchanged |
| `EscrowProgram.DepositRejectsOtherAmounts` | programs/solana_escrow/lib.rs:22-25 | with both accounts loaded, deposit fails with `InvalidAmount` exactly when the amount differs from the stored buy-in |
| `EscrowProgram.DepositMovesBuyIn` | programs/solana_escrow/lib.rs:27-38 | when the player's token account is not the escrow's token account, a deposit of the buy-in succeeds exactly when the player holds it and the escrow account can take it, and then moves exactly that amount from player to escrow and changes no other balance |
| `EscrowProgram.DepositIntoItself` | programs/solana_escrow/lib.rs:27-38 | when the player's token account is the escrow's token account, the deposit succeeds exactly when it holds the buy-in, and then no balance changes |
| `EscrowProgram.Deposit` | programs/solana_escrow/lib.rs:21-39 | the in-place deposit ends in `DepositSpec`'s balances, or reports its fault with the balances unchanged; the escrow record is unchanged either way |
| `EscrowProgram.PayPrefixFailureSticks` | programs/solana_escrow/lib.rs:76 | a failed transfer ends the payout loop: the `?` makes its error the loop's outcome |
| `EscrowProgram.Close` | programs/solana_escrow/lib.rs:41-80 | the in-place close: after its checks pass, the payout loop runs, and the whole instruction ends in `CloseSpec`'s balances, or reports its fault with every balance restored; the escrow record is unchanged |
| `EscrowProgram.PayWinners` | programs/solana_escrow/lib.rs:53-77 | with the escrow token account loaded, the in-place payout loop, reading the escrow balance once and making one transfer per winner, ends in `PayPrefix`'s balances, or reports the first failure with every balance restored |
| `EscrowProperties.CloseChecksAuthorityFirst` | programs/solana_escrow/lib.rs:42-45 | when every account loads, close fails with `Unauthorized` exactly when the signer is not the stored authority, whatever winners and shares are given |
| `EscrowProperties.PayPrefixFaults` | programs/solana_escrow/lib.rs:56-77 | the payout loop fails only by the index panic or a refused transfer |
| `EscrowProperties.CloseRejectsLengthMismatch` | programs/solana_escrow/lib.rs:46 | when the authority signs and every account loads, winners and shares of different lengths give `InvalidShares` |
| `EscrowProperties.CloseShareSumChecked` | programs/solana_escrow/lib.rs:47-50 | when the authority signs and there are as many shares as winners, with overflow checks: true sum above 255 panics, any other sum but 100 is `InvalidShares`, and validation passes exactly when the true sum is 100 |
| `EscrowProperties.CloseShareSumWrapping` | programs/solana_escrow/lib.rs:47-50 | when the authority signs and there are as many shares as winners, with wrap-around: validation passes exactly when the true sum is 100 modulo 256, and otherwise fails with `InvalidShares` |
| `EscrowProperties.WrappingOverfullCloseAborts` | programs/solana_escrow/lib.rs:47-76 | when the authority signs, every account loads, there are two winners with at least one winner token account, and the escrow balance is above 0 and below 2^63: under wrap-around shares [200, 156] pass validation, the first winner is owed twice the balance, and close aborts with insufficient funds |
| `EscrowProperties.CloseIgnoresWinnerKeys` | programs/solana_escrow/lib.rs:56-66 | two winner lists of the same length give the same outcome of close: the winner keys matter only through their number |
| `EscrowProperties.PayPrefixNeedsAccounts` | programs/solana_escrow/lib.rs:66 | with fewer winner token accounts than rounds, the payout loop fails |
| `EscrowProperties.CloseNeedsWinnerAccounts` | programs/solana_escrow/lib.rs:56-66 | close never succeeds with fewer winner token accounts than winners, nor with fewer than shares |
| `EscrowProperties.PayPrefixEffect` | programs/solana_escrow/lib.rs:56-77 | when every account loads, there is a winner token account for every round, the escrow account holds the sum of the amounts and no credit overflows, the loop completes; the escrow account loses exactly what it sent elsewhere and each other account gains exactly what it received |
| `EscrowProperties.ClosePaysShares` | programs/solana_escrow/lib.rs:52-79 | when every account loads, close passes validation with shares truly summing to 100, there is a winner token account per share and no credit overflows, close succeeds; winner `i` gets `floor(balance * shares[i] / 100)`, the total is at most the balance, and, when no winner token account is the escrow's own token account, the escrow keeps less than one token per winner |
| `EscrowProperties.PayPrefixConservesSupply` | programs/solana_escrow/lib.rs:56-77 | a payout loop that completes keeps the token supply and the set of token accounts |
| `EscrowProperties.CloseConservesSupply` | programs/solana_escrow/lib.rs:41-80 | a successful close neither creates nor destroys tokens |
| `EscrowProperties.CloseCanRunAgain` | programs/solana_escrow/lib.rs:41-80 | after a successful close the same call passes every check again and pays out from what is left: there is no closed flag |
| `EscrowProperties.DepositConservesSupply` | programs/solana_escrow/lib.rs:21-39 | a successful deposit neither creates nor destroys tokens |
| `NonceText.Render` | bot/index.ts:29 | the challenge text of a non-empty random draw is non-empty |
| `NonceText.ParseRender` | bot/index.ts:29 | parsing the comma-separated challenge text of a non-empty draw gives back the random bytes |
| `NonceText.RenderInjective` | bot/index.ts:29 | distinct non-empty random draws give distinct challenge texts |
| `WalletLink.Bot.Link` | bot/index.ts:24-35 | for a 32-byte draw, the in-place `/link` handler ends in the state `LinkSpec` gives |
| `WalletLink.Bot.OnText` | bot/index.ts:38-65 | the in-place text handler ends in the state `TextSpec` gives |
| `WalletLinkProperties.LinkReplacesChallenge` | bot/index.ts:24-30 | for a 32-byte draw, `/link` from a user with an id stores that user's fresh challenge, replacing any earlier one, even if the reply fails, and writes no link; without an id it does nothing |
| `WalletLinkProperties.OnlyLatestChallenge` | bot/index.ts:29-30 | after two `/link` commands from a user with an id, with different 32-byte draws, the pending challenge is the second and differs from the first |
| `WalletLinkProperties.UnchallengedTextIgnored` | bot/index.ts:39-43 | a text from a sender without an id or without a pending challenge changes nothing: no table write, no reply, map unchanged |
| `WalletLinkProperties.LinkWrittenIsRecovered` | bot/index.ts:48-58 | the row written is the sender's id with the address recovered from the pending challenge and the text, written exactly when recovery succeeds and the upsert reports no error |
| `WalletLinkProperties.RecoveredAddressNotChecked` | bot/index.ts:48-56 | for a sender with a pending challenge, two recoveries of different addresses lead to the same map and replies, and, unless the upsert fails, each stores its own address: the address is not compared with anything |
| `WalletLinkProperties.ChallengeClearedOnlyOnSuccess` | bot/index.ts:48-61 | for a sender with a pending challenge, the challenge is removed exactly when recovery, upsert and success reply all succeed, and then the success reply is sent |
| `WalletLinkProperties.FailureKeepsChallenge` | bot/index.ts:58-64 | for a sender with a pending challenge, on any failure the challenge map is unchanged and "Invalid signature" is sent unless that reply fails; when only the success reply failed, the link is already written |
| `WalletLinkProperties.ChallengeSingleUse` | bot/index.ts:42-43 | once a text has consumed a user's pending challenge, later texts from that user are ignored |
| `WalletLinkProperties.LinkTouchesOnlySender` | bot/index.ts:30 | `/link` keeps every other user's challenge and every link |
| `WalletLinkProperties.TextTouchesOnlySender` | bot/index.ts:42-61 | a text message keeps every other user's challenge and link |
| `WalletLinkProperties.LinkThenSign` | bot/index.ts:24-61 | `/link` from a user with an id with a 32-byte draw, followed by a signature that recovers an address, with no failing upsert or success reply, links that address and consumes the challenge |

## Left out

- Anchor account machinery is not modelled. This covers the `init` creation of the escrow account (payer, rent, the `[b"escrow"]` seed and bump), the 8-byte discriminator, and account ownership and mint constraints. `EscrowState.Initialize` is a constructor: the account comes into existence with its fields.
- The SPL token program's signer checks are not modelled: the player signing for its account, the escrow PDA signing with its seeds. Frozen accounts, delegates and mint mismatches are left out too. A transfer is only a checked balance move.
- The build profile is not part of this model. The overflow behaviour of the `u8` sum is therefore a parameter, not a fixed choice.
- Compute budget, rent and fees are left out: they are runtime limits, not program logic.
- Winner token accounts beyond the number of winners are accepted and ignored, as in the code. Nothing beyond that is said about them.
- `verifyMessage` (EIP-191 recovery) and `randomBytes` are oracles: a function argument and a byte-sequence argument. Cryptographic facts (unforgeability, randomness) are outside Dafny's reach.
- The Supabase client and Telegram's reply API are reduced to success/failure flags. The `wallet_links` table is a map keyed by `telegram_id`, assuming that column is the upsert key.
- A failed reply that is not caught escapes its handler and reaches grammY's error handling: the challenge reply of `/link` (sent after the challenge is stored) and the "Invalid signature" reply of the text handler. The model records only the missing reply; what grammY's error handling then does to the polling loop is not modelled.
- `/start`, `/leaderboard` and the `session()` middleware are left out. `/start` sends a fixed text and touches no state. `/leaderboard` is a store query plus `toFixed(2)` formatting. The session is never used.
- Routing of updates between handlers is left out. Each handler is modelled for the messages it receives.
- The web app (`app/`) is left out: UI pages, wallet-provider wiring and API routes that chain remote calls. It has no state of its own to verify.
