/**
 * What the wallet-link handlers guarantee: when the pending challenge
 * changes, when a link is written and with which address, and that a
 * handler acting for one user never touches another user's entries.
 */
module WalletLinkProperties {
  import opened Results
  import opened NonceText
  import opened WalletLink

  /**
   * `/link` from a user with an id stores a fresh challenge for that user,
   * replacing any earlier one, even when the reply carrying it fails; it
   * writes no link. Without a user id it does nothing.
   */
  lemma LinkReplacesChallenge(s: BotState, from: Option<UserId>, random: seq<Byte>, replyFails: bool)
    requires |random| == NONCE_BYTES
    ensures var s' := LinkSpec(s, from, random, replyFails);
            && (HasUser(from) ==>
                  && s'.nonces == s.nonces[from.value := Render(random)]
                  && Pending(s', from) == Some(Render(random))
                  && s'.links == s.links)
            && (!HasUser(from) ==> s' == s)
  {
  }

  /**
   * Only the latest challenge counts: after two `/link` commands with
   * different random draws, the pending challenge is the second one and
   * differs from the first.
   */
  lemma OnlyLatestChallenge(s: BotState, from: Option<UserId>, r1: seq<Byte>, r2: seq<Byte>, f1: bool, f2: bool)
    requires |r1| == NONCE_BYTES && |r2| == NONCE_BYTES && r1 != r2
    requires HasUser(from)
    ensures var s2 := LinkSpec(LinkSpec(s, from, r1, f1), from, r2, f2);
            Pending(s2, from) == Some(Render(r2)) && Render(r2) != Render(r1)
  {
    if Render(r1) == Render(r2) {
      RenderInjective(r1, r2);
    }
  }

  /**
   * A text message from a sender without an id, or without a truthy pending
   * challenge, is ignored: no recovery, no table write, no reply, no change
   * to the map.
   */
  lemma UnchallengedTextIgnored(s: BotState, from: Option<UserId>, text: string, fx: TextEffects)
    requires !HasUser(from) || from.value !in s.nonces || s.nonces[from.value] == ""
    ensures TextSpec(s, from, text, fx) == s
  {
  }

  /**
   * The row written is `{telegram_id: sender, wallet_address: recovered}`,
   * where `recovered` is whatever recovery returns for the pending challenge
   * and the text; it is written exactly when recovery succeeds and the
   * upsert reports no error.
   */
  lemma LinkWrittenIsRecovered(s: BotState, from: Option<UserId>, text: string, fx: TextEffects)
    ensures var s' := TextSpec(s, from, text, fx);
            match Pending(s, from)
            case None => s'.links == s.links
            case Some(nonce) =>
              var recovered := fx.recover(nonce, text);
              s'.links == if recovered.Some? && !fx.upsertFails then s.links[from.value := recovered.value] else s.links
  {
  }

  /**
   * The recovered address is not compared with anything: two recoveries of
   * different addresses lead to the same outcome except for the address
   * stored, so any well-formed signature links the address it recovers.
   */
  lemma RecoveredAddressNotChecked(s: BotState, from: Option<UserId>, text: string, fx: TextEffects, a1: string, a2: string)
    requires Pending(s, from).Some?
    ensures var nonce := Pending(s, from).value;
            var fx1 := fx.(recover := (m, sig) => if m == nonce && sig == text then Some(a1) else fx.recover(m, sig));
            var fx2 := fx.(recover := (m, sig) => if m == nonce && sig == text then Some(a2) else fx.recover(m, sig));
            var s1, s2 := TextSpec(s, from, text, fx1), TextSpec(s, from, text, fx2);
            && s1.nonces == s2.nonces && s1.sent == s2.sent
            && (!fx.upsertFails ==> s1.links == s.links[from.value := a1] && s2.links == s.links[from.value := a2])
  {
  }

  /**
   * The sender's challenge is removed exactly when recovery succeeds, the
   * upsert reports no error and the success reply is sent; the success reply
   * is then the one message sent.
   */
  lemma ChallengeClearedOnlyOnSuccess(s: BotState, from: Option<UserId>, text: string, fx: TextEffects)
    requires Pending(s, from).Some?
    ensures var u, nonce := from.value, Pending(s, from).value;
            var s' := TextSpec(s, from, text, fx);
            var success := fx.recover(nonce, text).Some? && !fx.upsertFails && !fx.linkedReplyFails;
            && (u !in s'.nonces <==> success)
            && (success ==> s'.nonces == s.nonces - {u} && s'.sent == s.sent + [Reply(u, LINKED_TEXT)])
  {
  }

  /**
   * Any failure on the way (recovery throws, the upsert errs, the success
   * reply fails) leaves every pending challenge in place and answers
   * "Invalid signature", so the user can send the signature again. When only
   * the success reply failed, the link has already been written.
   */
  lemma FailureKeepsChallenge(s: BotState, from: Option<UserId>, text: string, fx: TextEffects)
    requires Pending(s, from).Some?
    requires var nonce := Pending(s, from).value;
             fx.recover(nonce, text).None? || fx.upsertFails || fx.linkedReplyFails
    ensures var u, nonce := from.value, Pending(s, from).value;
            var s' := TextSpec(s, from, text, fx);
            && s'.nonces == s.nonces
            && Pending(s', from) == Pending(s, from)
            && s'.sent == s.sent + (if fx.invalidReplyFails then [] else [Reply(u, INVALID_TEXT)])
            && (fx.recover(nonce, text).Some? && !fx.upsertFails ==> s'.links == s.links[u := fx.recover(nonce, text).value])
  {
  }

  /** A challenge is single-use: once it has linked a wallet, every later text from that user is ignored until the next `/link`. */
  lemma ChallengeSingleUse(s: BotState, from: Option<UserId>, text: string, fx: TextEffects,
                           replay: string, fx': TextEffects)
    requires Pending(s, from).Some?
    requires from.value !in TextSpec(s, from, text, fx).nonces
    ensures var s' := TextSpec(s, from, text, fx);
            TextSpec(s', from, replay, fx') == s'
  {
  }

  /** `/link` keeps every other user's challenge and link. */
  lemma LinkTouchesOnlySender(s: BotState, from: Option<UserId>, random: seq<Byte>, replyFails: bool, v: UserId)
    requires !HasUser(from) || v != from.value
    ensures var s' := LinkSpec(s, from, random, replyFails);
            && (v in s'.nonces <==> v in s.nonces) && (v in s.nonces ==> s'.nonces[v] == s.nonces[v])
            && s'.links == s.links
  {
  }

  /** A text message keeps every other user's challenge and link. */
  lemma TextTouchesOnlySender(s: BotState, from: Option<UserId>, text: string, fx: TextEffects, v: UserId)
    requires !HasUser(from) || v != from.value
    ensures var s' := TextSpec(s, from, text, fx);
            && (v in s'.nonces <==> v in s.nonces) && (v in s.nonces ==> s'.nonces[v] == s.nonces[v])
            && (v in s'.links <==> v in s.links) && (v in s.links ==> s'.links[v] == s.links[v])
  {
  }

  /**
   * The intended round: `/link`, then a signature of the challenge that
   * recovers to `address`, with no outside failure, links `address` and
   * consumes the challenge.
   */
  lemma LinkThenSign(s: BotState, from: Option<UserId>, random: seq<Byte>, replyFails: bool,
                     signature: string, fx: TextEffects, address: string)
    requires |random| == NONCE_BYTES && HasUser(from)
    requires fx.recover(Render(random), signature) == Some(address)
    requires !fx.upsertFails && !fx.linkedReplyFails
    ensures var s' := TextSpec(LinkSpec(s, from, random, replyFails), from, signature, fx);
            && from.value in s'.links && s'.links[from.value] == address
            && from.value !in s'.nonces
  {
  }
}
