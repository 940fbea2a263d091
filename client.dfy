/**
 * The initiator (SecureIpcViewModel.kt): it binds to the responder, runs the
 * key exchange when the public key arrives, encrypts user text under the
 * session key and keeps the decrypted answers in an append-only list. Each
 * callback is handled as one atomic step in arrival order.
 */
module Client {
  import opened Wrappers
  import opened Crypto
  import opened Protocol

  /** The alias of the initiator's own crypto helper (its key store is never used by these handlers). */
  const ClientKeyAlias := "ClientRSAKey"

  /** `ByteArray(16)`: the session-key buffer before any key exchange. */
  const ZeroKey: Bytes := seq(AesKeyBytes, _ => 0)

  /** The initiator's state: the service's messenger if bound, the session-key buffer, the responses so far. */
  datatype ClientState = ClientState(service: Option<Messenger>, key: Bytes, responses: seq<string>)

  datatype ClientResult = ClientResult(state: ClientState, outcome: Outcome)

  /**
   * The reply handler installed in `init`, as a function of the state before the
   * reply. `self` is the initiator's reply messenger and `newKey` the key
   * `generateRawAESKey` returns if the reply is a public key; `copyInto`
   * overwrites the front of the buffer with it. The `!!` on a missing field
   * throws on the handler's thread, and an exception in the coroutine that
   * follows is uncaught too: both end the process.
   */
  function ReplyStep(g: Primitives, s: ClientState, self: Messenger, msg: Message, newKey: Bytes): (r: ClientResult)
    requires |newKey| <= |s.key|
    ensures |r.state.key| == |s.key|
  {
    if msg.what == MsgReplyPublicKey then
      if PublicKeyField !in msg.data then ClientResult(s, Crash(MissingField(PublicKeyField)))
      else
        var installed := s.(key := newKey + s.key[|newKey|..]);
        match EncryptWithRsa(g, msg.data[PublicKeyField], newKey)
        case Err(e) => ClientResult(installed, Crash(CryptoFault(e)))
        case Ok(encryptedAes) =>
          match s.service
          case None => ClientResult(installed, Silent)
          case Some(to) =>
            ClientResult(installed, Send(Outgoing(to, Message(MsgSendEncryptedAesKey, map[EncryptedAesField := encryptedAes], Some(self)))))
    else if msg.what == MsgSecureResponse then
      if SecureResponseField !in msg.data then ClientResult(s, Crash(MissingField(SecureResponseField)))
      else
        match AesDecrypt(g, s.key, msg.data[SecureResponseField])
        case Err(e) => ClientResult(s, Crash(CryptoFault(e)))
        case Ok(plain) => ClientResult(s.(responses := s.responses + [plain]), Silent)
    else
      ClientResult(s, Silent)
  }

  class SecureIpcViewModel {
    const crypto: CryptoHelper
    /** The messenger the responder answers to. */
    const replyMessenger: Messenger
    var serviceMessenger: Option<Messenger>
    /** The session-key buffer; the same array for the object's whole life, overwritten in place. */
    const rawAes: array<Byte>
    var responses: seq<string>

    ghost predicate Valid()
      reads this
    {
      rawAes.Length == AesKeyBytes
    }

    function State(): ClientState
      reads this, rawAes
    {
      ClientState(serviceMessenger, rawAes[..], responses)
    }

    constructor (g: Primitives, keyStore: KeyStore, replyMessenger: Messenger)
      ensures Valid() && fresh(rawAes)
      ensures crypto.g == g && crypto.keyAlias == ClientKeyAlias && this.replyMessenger == replyMessenger
      ensures State() == ClientState(None, ZeroKey, [])
    {
      crypto := new CryptoHelper(g, ClientKeyAlias, keyStore);
      this.replyMessenger := replyMessenger;
      serviceMessenger := None;
      rawAes := new Byte[AesKeyBytes](_ => 0);
      responses := [];
    }

    /** `onServiceConnected`: keeps the service's messenger and asks it for its public key. */
    method OnServiceConnected(service: Messenger) returns (out: Outgoing)
      modifies this
      ensures State() == old(State()).(service := Some(service))
      ensures out == Outgoing(service, Message(MsgRequestPublicKey, map[], Some(replyMessenger)))
    {
      serviceMessenger := Some(service);
      var msg := Message(MsgRequestPublicKey, map[], Some(replyMessenger));
      out := Outgoing(serviceMessenger.value, msg);
    }

    /** `onServiceDisconnected`: forgets the service's messenger and nothing else. */
    method OnServiceDisconnected()
      modifies this
      ensures State() == old(State()).(service := None)
    {
      serviceMessenger := None;
    }

    /**
     * `sendSecureMessage`: while bound, sends `text` sealed under the current
     * buffer (`iv` is the IV the cipher draws); while unbound it only reports the
     * error to the user. It changes no state.
     */
    method SendSecureMessage(text: string, iv: Bytes) returns (sent: Option<Outgoing>)
      requires Valid() && |iv| == IvBytes
      ensures sent.None? <==> serviceMessenger.None?
      ensures sent.Some? ==>
        && sent.value.to == serviceMessenger.value
        && sent.value.msg.what == MsgSendSecureData
        && sent.value.msg.replyTo == Some(replyMessenger)
        && sent.value.msg.data.Keys == {SecureDataField}
        && AesEncrypt(crypto.g, rawAes[..], iv, text) == Ok(sent.value.msg.data[SecureDataField])
    {
      if serviceMessenger.None? {
        return None;
      }
      var encrypted := AesEncrypt(crypto.g, rawAes[..], iv, text);
      var msg := Message(MsgSendSecureData, map[SecureDataField := encrypted.value], Some(replyMessenger));
      sent := Some(Outgoing(serviceMessenger.value, msg));
    }

    /** `ByteArray.copyInto(rawAES)`: overwrites the front of the buffer with `src`, in place. */
    method CopyInto(src: Bytes)
      requires |src| <= rawAes.Length
      modifies rawAes
      ensures rawAes[..] == src + old(rawAes[..])[|src|..]
    {
      for i := 0 to |src|
        invariant rawAes[..i] == src[..i]
        invariant rawAes[i..] == old(rawAes[..])[i..]
      {
        rawAes[i] := src[i];
      }
    }

    /**
     * The reply handler. If a key was generated, it is what the buffer now holds,
     * so the new buffer stands for `newKey` in the step.
     */
    method HandleReply(msg: Message) returns (outcome: Outcome)
      requires Valid()
      modifies this, rawAes
      ensures Valid()
      ensures ClientResult(State(), outcome) == ReplyStep(crypto.g, old(State()), replyMessenger, msg, rawAes[..])
    {
      outcome := Silent;
      if msg.what == MsgReplyPublicKey {
        if PublicKeyField !in msg.data {
          return Crash(MissingField(PublicKeyField));
        }
        var publicKey := msg.data[PublicKeyField];
        var newAes := crypto.GenerateRawAesKey();
        CopyInto(newAes);
        assert rawAes[..] == newAes;
        var encryptedAes := EncryptWithRsa(crypto.g, publicKey, newAes);
        if encryptedAes.Err? {
          return Crash(CryptoFault(encryptedAes.error));
        }
        var m := Message(MsgSendEncryptedAesKey, map[EncryptedAesField := encryptedAes.value], Some(replyMessenger));
        if serviceMessenger.Some? {
          outcome := Send(Outgoing(serviceMessenger.value, m));
        }
      } else if msg.what == MsgSecureResponse {
        if SecureResponseField !in msg.data {
          return Crash(MissingField(SecureResponseField));
        }
        var encrypted := msg.data[SecureResponseField];
        var plain := AesDecrypt(crypto.g, rawAes[..], encrypted);
        if plain.Err? {
          return Crash(CryptoFault(plain.error));
        }
        responses := responses + [plain.value];
      }
    }
  }

  // ---------------------------------------------------------------- properties of one reply

  /**
   * Code 2 overwrites the buffer with the new key, and the code-3 message sent to
   * the bound service carries `encryptWithRSA` of that same key under the received
   * public key, with the initiator's reply messenger. Nothing else changes.
   */
  lemma PublicKeyReplyExchangesKey(g: Primitives, s: ClientState, self: Messenger, msg: Message, newKey: Bytes)
    requires msg.what == MsgReplyPublicKey && PublicKeyField in msg.data && |newKey| == |s.key|
    ensures ReplyStep(g, s, self, msg, newKey).state == s.(key := newKey)
    ensures EncryptWithRsa(g, msg.data[PublicKeyField], newKey).Ok? && s.service.Some? ==>
      ReplyStep(g, s, self, msg, newKey).outcome
        == Send(Outgoing(s.service.value, Message(MsgSendEncryptedAesKey,
                  map[EncryptedAesField := EncryptWithRsa(g, msg.data[PublicKeyField], newKey).value], Some(self))))
    ensures EncryptWithRsa(g, msg.data[PublicKeyField], newKey).Err? ==> ReplyStep(g, s, self, msg, newKey).outcome.Crash?
  {
    assert newKey + s.key[|newKey|..] == newKey;
  }

  /**
   * When the public key is the one the responder exports for its identity, the
   * key the initiator sends is the key it installed: the responder's RSA
   * decryption of the code-3 payload gives it back bit for bit.
   */
  lemma ExchangedKeyReachesResponder(g: Primitives, s: ClientState, self: Messenger, msg: Message, newKey: Bytes,
                                     entries: map<string, KeyPair>, alias: string)
    requires RsaAxioms(g) && alias in entries && s.service.Some?
    requires msg.what == MsgReplyPublicKey && PublicKeyField in msg.data
    requires msg.data[PublicKeyField] == g.encodedPublicKey(entries[alias])
    requires |newKey| == |s.key| == AesKeyBytes
    ensures var r := ReplyStep(g, s, self, msg, newKey);
      && r.state.key == newKey
      && r.outcome.Send? && r.outcome.out.msg.what == MsgSendEncryptedAesKey
      && EncryptedAesField in r.outcome.out.msg.data
      && DecryptWithRsa(g, entries, alias, r.outcome.out.msg.data[EncryptedAesField]) == Ok(newKey)
  {
    RsaKeyTransport(g, entries, alias, newKey);
    PublicKeyReplyExchangesKey(g, s, self, msg, newKey);
  }

  /** Code 5 that decrypts under the buffer appends exactly its plaintext to the responses, and nothing else changes. */
  lemma SecureResponseAppended(g: Primitives, s: ClientState, self: Messenger, msg: Message, newKey: Bytes)
    requires |newKey| <= |s.key|
    requires msg.what == MsgSecureResponse && SecureResponseField in msg.data
    requires AesDecrypt(g, s.key, msg.data[SecureResponseField]).Ok?
    ensures ReplyStep(g, s, self, msg, newKey)
         == ClientResult(s.(responses := s.responses + [AesDecrypt(g, s.key, msg.data[SecureResponseField]).value]), Silent)
  {
  }

  /** Code 5 that does not decrypt throws in the coroutine: no response is added and nothing changes. */
  lemma SecureResponseFailureCrashes(g: Primitives, s: ClientState, self: Messenger, msg: Message, newKey: Bytes)
    requires |newKey| <= |s.key|
    requires msg.what == MsgSecureResponse && SecureResponseField in msg.data
    requires AesDecrypt(g, s.key, msg.data[SecureResponseField]).Err?
    ensures ReplyStep(g, s, self, msg, newKey)
         == ClientResult(s, Crash(CryptoFault(AesDecrypt(g, s.key, msg.data[SecureResponseField]).error)))
  {
  }

  /** Unlike the responder, the initiator does not drop a code 2 or 5 without its field: the `!!` throws. */
  lemma MissingFieldCrashes(g: Primitives, s: ClientState, self: Messenger, msg: Message, newKey: Bytes)
    requires |newKey| <= |s.key|
    requires (msg.what == MsgReplyPublicKey && PublicKeyField !in msg.data)
          || (msg.what == MsgSecureResponse && SecureResponseField !in msg.data)
    ensures ReplyStep(g, s, self, msg, newKey)
         == ClientResult(s, Crash(MissingField(if msg.what == MsgReplyPublicKey then PublicKeyField else SecureResponseField)))
  {
  }

  /** Every code other than 2 and 5 is ignored. */
  lemma OtherRepliesIgnored(g: Primitives, s: ClientState, self: Messenger, msg: Message, newKey: Bytes)
    requires |newKey| <= |s.key|
    requires msg.what != MsgReplyPublicKey && msg.what != MsgSecureResponse
    ensures ReplyStep(g, s, self, msg, newKey) == ClientResult(s, Silent)
  {
  }

  /**
   * Across every reply: the binding is untouched, the responses only grow at the
   * end and by at most one entry, and the buffer changes only on code 2.
   */
  lemma ReplyStepFrame(g: Primitives, s: ClientState, self: Messenger, msg: Message, newKey: Bytes)
    requires |newKey| <= |s.key|
    ensures var r := ReplyStep(g, s, self, msg, newKey);
      && r.state.service == s.service
      && |s.responses| <= |r.state.responses| <= |s.responses| + 1
      && r.state.responses[..|s.responses|] == s.responses
      && (r.state.key != s.key ==> msg.what == MsgReplyPublicKey)
  {
  }

  // ---------------------------------------------------------------- runs of replies

  /**
   * The state after the handler has processed `msgs` in order, `keys[i]` being
   * what the key generator returns at message i. Processing stops at the first
   * uncaught exception, which ends the process.
   */
  function RunReplies(g: Primitives, s: ClientState, self: Messenger, msgs: seq<Message>, keys: seq<Bytes>): (t: ClientState)
    requires |keys| == |msgs|
    requires forall i :: 0 <= i < |keys| ==> |keys[i]| == |s.key|
    ensures |t.key| == |s.key| && t.service == s.service
    decreases |msgs|
  {
    if msgs == [] then s
    else
      var r := ReplyStep(g, s, self, msgs[0], keys[0]);
      if r.outcome.Crash? then r.state else RunReplies(g, r.state, self, msgs[1..], keys[1..])
  }

  /**
   * The buffer keeps its value until a code-2 reply arrives; since it starts as
   * `ZeroKey`, a message sent before the key exchange is sealed under the all-zero key.
   */
  lemma {:induction false} KeyUnchangedUntilKeyReply(g: Primitives, s: ClientState, self: Messenger,
                                                      msgs: seq<Message>, keys: seq<Bytes>)
    requires |keys| == |msgs|
    requires forall i :: 0 <= i < |keys| ==> |keys[i]| == |s.key|
    requires forall i :: 0 <= i < |msgs| ==> msgs[i].what != MsgReplyPublicKey
    ensures RunReplies(g, s, self, msgs, keys).key == s.key
    decreases |msgs|
  {
    if msgs != [] {
      ReplyStepFrame(g, s, self, msgs[0], keys[0]);
      var r := ReplyStep(g, s, self, msgs[0], keys[0]);
      if !r.outcome.Crash? {
        KeyUnchangedUntilKeyReply(g, r.state, self, msgs[1..], keys[1..]);
      }
    }
  }

  /**
   * Before the key exchange the session key is public: starting from the
   * constructor's all-zero buffer, after any replies none of which is a public
   * key, the buffer `SendSecureMessage` seals under is still `ZeroKey`, so anyone
   * who decrypts with the all-zero key reads the text.
   */
  lemma SendBeforeExchangeUsesZeroKey(g: Primitives, service: Option<Messenger>, responses: seq<string>,
                                      self: Messenger, msgs: seq<Message>, keys: seq<Bytes>, iv: Bytes, text: string)
    requires GcmCorrect(g) && |iv| == IvBytes
    requires |keys| == |msgs|
    requires forall i :: 0 <= i < |keys| ==> |keys[i]| == AesKeyBytes
    requires forall i :: 0 <= i < |msgs| ==> msgs[i].what != MsgReplyPublicKey
    ensures var t := RunReplies(g, ClientState(service, ZeroKey, responses), self, msgs, keys);
      && t.key == ZeroKey
      && AesEncrypt(g, t.key, iv, text).Ok?
      && AesDecrypt(g, ZeroKey, AesEncrypt(g, t.key, iv, text).value) == Ok(text)
  {
    KeyUnchangedUntilKeyReply(g, ClientState(service, ZeroKey, responses), self, msgs, keys);
    AesRoundTrip(g, ZeroKey, iv, text);
  }

  /** The response list is append-only: whatever replies arrive, the earlier entries stay, in order, at the front. */
  lemma {:induction false} ResponsesAppendOnly(g: Primitives, s: ClientState, self: Messenger,
                                                msgs: seq<Message>, keys: seq<Bytes>)
    requires |keys| == |msgs|
    requires forall i :: 0 <= i < |keys| ==> |keys[i]| == |s.key|
    ensures |s.responses| <= |RunReplies(g, s, self, msgs, keys).responses|
    ensures RunReplies(g, s, self, msgs, keys).responses[..|s.responses|] == s.responses
    decreases |msgs|
  {
    if msgs != [] {
      ReplyStepFrame(g, s, self, msgs[0], keys[0]);
      var r := ReplyStep(g, s, self, msgs[0], keys[0]);
      if !r.outcome.Crash? {
        ResponsesAppendOnly(g, r.state, self, msgs[1..], keys[1..]);
        var t := RunReplies(g, r.state, self, msgs[1..], keys[1..]).responses;
        assert t[..|s.responses|] == t[..|r.state.responses|][..|s.responses|];
      }
    }
  }
}
