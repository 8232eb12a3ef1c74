/**
 * The Telegram bot's wallet-link challenge. A module-level map from user id
 * to the pending challenge ("nonce") is overwritten by `/link`, consulted by
 * every text message, and cleared for a user only after that user's
 * signature has been turned into an address, the address has been written to
 * the `wallet_links` table and the success reply has gone out.
 *
 * Signature recovery (`ethers.utils.verifyMessage`), the table upsert and the
 * Telegram replies are outside calls; each handler receives what they do as
 * an argument. grammY's polling loop hands updates to the handlers one at a
 * time, so each handler runs start to end without interleaving.
 */
module WalletLink {
  import opened Results
  import opened NonceText

  /** A Telegram user id (a JavaScript number). */
  type UserId = int

  /** A reply to the message of the user it names. */
  datatype Reply = Reply(to: UserId, text: string)

  const LINKED_TEXT: string := "Wallet linked successfully!"
  const INVALID_TEXT: string := "Invalid signature. Please try again."
  const NONCE_BYTES: nat := 32

  function ChallengeText(nonce: string): string
  {
    "To link your wallet, sign this message with your wallet:\n\n" + nonce
    + "\n\nAfter signing, send the signature here."
  }

  /** JavaScript truthiness of `ctx.from?.id`: `undefined` and `0` are both falsy. */
  predicate HasUser(from: Option<UserId>)
  {
    from.Some? && from.value != 0
  }

  /**
   * What the outside world does while one text message is handled.
   * `recover(message, signature)` is `ethers.utils.verifyMessage`: the address
   * whose key signed `message` with EIP-191 personal-message signing, or
   * `None` when it throws on a malformed signature. The flags say which of
   * the upsert, the success reply and the error reply fail.
   */
  datatype TextEffects = TextEffects(
    recover: (string, string) -> Option<string>,
    upsertFails: bool,
    linkedReplyFails: bool,
    invalidReplyFails: bool)

  /**
   * The state the handlers read and write: the `nonces` map, the
   * `wallet_links` table (upserted on `telegram_id`), and the replies sent.
   */
  datatype BotState = BotState(nonces: map<UserId, string>, links: map<UserId, string>, sent: seq<Reply>)

  /** The `/link` command with `random` as the 32 bytes drawn for the challenge. */
  function LinkSpec(s: BotState, from: Option<UserId>, random: seq<Byte>, replyFails: bool): BotState
  {
    if !HasUser(from) then s
    else
      var u, nonce := from.value, Render(random);
      var s' := s.(nonces := s.nonces[u := nonce]);
      if replyFails then s' else s'.(sent := s'.sent + [Reply(u, ChallengeText(nonce))])
  }

  /** The challenge pending for the sender, if the sender has a truthy one. */
  function Pending(s: BotState, from: Option<UserId>): Option<string>
  {
    if HasUser(from) && from.value in s.nonces && s.nonces[from.value] != "" then Some(s.nonces[from.value])
    else None
  }

  /** The `catch` branch: the nonce stays, and the user is told to try again. */
  function Rejected(s: BotState, u: UserId, fx: TextEffects): BotState
  {
    if fx.invalidReplyFails then s else s.(sent := s.sent + [Reply(u, INVALID_TEXT)])
  }

  /** The `message:text` handler: `text` is taken to be a signature of the sender's pending challenge. */
  function TextSpec(s: BotState, from: Option<UserId>, text: string, fx: TextEffects): BotState
  {
    match Pending(s, from)
    case None => s
    case Some(nonce) =>
      var u := from.value;
      match fx.recover(nonce, text)
      case None => Rejected(s, u, fx)
      case Some(address) =>
        if fx.upsertFails then Rejected(s, u, fx)
        else
          var stored := s.(links := s.links[u := address]);
          if fx.linkedReplyFails then Rejected(stored, u, fx)
          else stored.(sent := stored.sent + [Reply(u, LINKED_TEXT)], nonces := stored.nonces - {u})
  }

  /** The running bot: the `nonces` map it owns, and what it has written and sent. */
  class Bot {
    var nonces: map<UserId, string>
    var links: map<UserId, string>
    var sent: seq<Reply>

    function State(): BotState
      reads this
    {
      BotState(nonces, links, sent)
    }

    constructor (links: map<UserId, string>)
      ensures State() == BotState(map[], links, [])
    {
      nonces := map[];
      this.links := links;
      sent := [];
    }

    /** `/link`: store a fresh challenge for the sender, replacing any earlier one, then send it. */
    method Link(from: Option<UserId>, random: seq<Byte>, replyFails: bool)
      requires |random| == NONCE_BYTES
      modifies this
      ensures State() == LinkSpec(old(State()), from, random, replyFails)
    {
      if !HasUser(from) {
        return;
      }
      var u := from.value;
      var nonce := Render(random);
      nonces := nonces[u := nonce];
      if !replyFails {
        sent := sent + [Reply(u, ChallengeText(nonce))];
      }
    }

    /** A text message: try it as the signature of the sender's pending challenge. */
    method OnText(from: Option<UserId>, text: string, fx: TextEffects)
      modifies this
      ensures State() == TextSpec(old(State()), from, text, fx)
    {
      if !HasUser(from) {
        return;
      }
      var u := from.value;
      if u !in nonces || nonces[u] == "" {
        return;
      }
      var nonce := nonces[u];
      var failed := true;
      var address := fx.recover(nonce, text);
      if address.Some? && !fx.upsertFails {
        links := links[u := address.value];
        if !fx.linkedReplyFails {
          sent := sent + [Reply(u, LINKED_TEXT)];
          nonces := nonces - {u};
          failed := false;
        }
      }
      if failed && !fx.invalidReplyFails {
        sent := sent + [Reply(u, INVALID_TEXT)];
      }
    }
  }
}
