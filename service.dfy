/**
 * The responder (SecureService.kt): a bound service whose handler answers
 * public-key requests, installs the session key the initiator sends, and
 * answers each secure message under that key. Each message is handled as one
 * atomic step in arrival order.
 */
module Service {
  import opened Wrappers
  import opened Crypto
  import opened Protocol

  /** The alias of the responder's RSA identity in its key store. */
  const ServiceKeyAlias := "ServiceRSAKey"

  /** The responder's session key after a message, and what the message led to. */
  datatype ServiceResult = ServiceResult(rawAes: Option<Bytes>, outcome: Outcome)

  /**
   * `IncomingHandler.handleMessage` as a function of the session key before the
   * message. `entries` and `alias` are the key store and the responder's alias;
   * `iv` is the IV the cipher draws if the message is answered under AES-GCM.
   * Code 1 runs on the handler's thread, where an exception is uncaught; codes 3
   * and 4 run in a coroutine that catches every exception of the crypto calls
   * and of sending the reply, and so only drop the message.
   */
  function ServiceStep(g: Primitives, entries: map<string, KeyPair>, alias: string,
                       rawAes: Option<Bytes>, msg: Message, iv: Bytes): (r: ServiceResult)
    requires |iv| == IvBytes
    ensures r.rawAes == rawAes || msg.what == MsgSendEncryptedAesKey
    ensures r.outcome.Send? ==> msg.replyTo == Some(r.outcome.out.to)
  {
    if msg.what == MsgRequestPublicKey then
      match RsaPublicKey(g, entries, alias)
      case Err(e) => ServiceResult(rawAes, Crash(CryptoFault(e)))
      case Ok(publicKey) =>
        match msg.replyTo
        case None => ServiceResult(rawAes, Crash(NullReplyTo))
        case Some(to) =>
          ServiceResult(rawAes, Send(Outgoing(to, Message(MsgReplyPublicKey, map[PublicKeyField := publicKey], None))))
    else if msg.what == MsgSendEncryptedAesKey then
      if EncryptedAesField !in msg.data then ServiceResult(rawAes, Silent)
      else
        match DecryptWithRsa(g, entries, alias, msg.data[EncryptedAesField])
        case Err(_) => ServiceResult(rawAes, Silent)
        case Ok(key) => ServiceResult(Some(key), Silent)
    else if msg.what == MsgSendSecureData then
      if SecureDataField !in msg.data || rawAes.None? then ServiceResult(rawAes, Silent)
      else
        match AesDecrypt(g, rawAes.value, msg.data[SecureDataField])
        case Err(_) => ServiceResult(rawAes, Silent)
        case Ok(plain) =>
          match AesEncrypt(g, rawAes.value, iv, ResponsePrefix + plain)
          case Err(_) => ServiceResult(rawAes, Silent)
          case Ok(response) =>
            match msg.replyTo
            case None => ServiceResult(rawAes, Silent)
            case Some(to) =>
              ServiceResult(rawAes, Send(Outgoing(to, Message(MsgSecureResponse, map[SecureResponseField := response], None))))
    else
      ServiceResult(rawAes, Silent)
  }

  /** The responder's process state: its crypto helper and the optional session key. */
  class SecureService {
    const crypto: CryptoHelper
    var rawAes: Option<Bytes>

    /** `onCreate`: makes sure the RSA identity exists; `identity` is the key pair generated if it does not. */
    constructor (g: Primitives, keyStore: KeyStore, identity: KeyPair)
      modifies keyStore
      ensures crypto.g == g && crypto.keyAlias == ServiceKeyAlias && crypto.keyStore == keyStore
      ensures keyStore.entries == RsaKeyIfNeeded(old(keyStore.entries), ServiceKeyAlias, identity)
      ensures rawAes == None
    {
      var helper := new CryptoHelper(g, ServiceKeyAlias, keyStore);
      crypto := helper;
      rawAes := None;
      new;
      crypto.GenerateRsaKeyIfNeeded(identity);
    }

    /** `IncomingHandler.handleMessage`; `iv` is the IV drawn if the reply is encrypted. */
    method HandleMessage(msg: Message, iv: Bytes) returns (outcome: Outcome)
      requires |iv| == IvBytes
      modifies this
      ensures ServiceResult(rawAes, outcome) == ServiceStep(crypto.g, crypto.keyStore.entries, crypto.keyAlias, old(rawAes), msg, iv)
    {
      outcome := Silent;
      var data := msg.data;
      if msg.what == MsgRequestPublicKey {
        var publicKey := RsaPublicKey(crypto.g, crypto.keyStore.entries, crypto.keyAlias);
        if publicKey.Err? {
          return Crash(CryptoFault(publicKey.error));
        }
        var reply := Message(MsgReplyPublicKey, map[PublicKeyField := publicKey.value], None);
        if msg.replyTo.None? {
          return Crash(NullReplyTo);
        }
        outcome := Send(Outgoing(msg.replyTo.value, reply));
      } else if msg.what == MsgSendEncryptedAesKey {
        if EncryptedAesField !in data {
          return;
        }
        var decrypted := DecryptWithRsa(crypto.g, crypto.keyStore.entries, crypto.keyAlias, data[EncryptedAesField]);
        if decrypted.Ok? {
          rawAes := Some(decrypted.value);
        }
      } else if msg.what == MsgSendSecureData {
        var aesKey := rawAes;
        if SecureDataField !in data {
          return;
        }
        if aesKey.None? {
          return;
        }
        var plain := AesDecrypt(crypto.g, aesKey.value, data[SecureDataField]);
        if plain.Err? {
          return;
        }
        var response := AesEncrypt(crypto.g, aesKey.value, iv, ResponsePrefix + plain.value);
        if response.Err? || msg.replyTo.None? {
          return;
        }
        var reply := Message(MsgSecureResponse, map[SecureResponseField := response.value], None);
        outcome := Send(Outgoing(msg.replyTo.value, reply));
      }
    }
  }

  // ---------------------------------------------------------------- properties of one step

  /** Code 1 is answered with exactly one code-2 reply carrying the public key, to the sender; the key is unchanged. */
  lemma PublicKeyRequestAnswered(g: Primitives, entries: map<string, KeyPair>, alias: string,
                                 rawAes: Option<Bytes>, msg: Message, iv: Bytes)
    requires |iv| == IvBytes && msg.what == MsgRequestPublicKey && alias in entries && msg.replyTo.Some?
    ensures var r := ServiceStep(g, entries, alias, rawAes, msg, iv);
      && r.rawAes == rawAes
      && r.outcome.Send?
      && r.outcome.out.to == msg.replyTo.value
      && r.outcome.out.msg.what == MsgReplyPublicKey
      && r.outcome.out.msg.data == map[PublicKeyField := g.encodedPublicKey(entries[alias])]
  {
  }

  /** Code 3 without its field is dropped. */
  lemma KeyInstallWithoutFieldDropped(g: Primitives, entries: map<string, KeyPair>, alias: string,
                                      rawAes: Option<Bytes>, msg: Message, iv: Bytes)
    requires |iv| == IvBytes && msg.what == MsgSendEncryptedAesKey && EncryptedAesField !in msg.data
    ensures ServiceStep(g, entries, alias, rawAes, msg, iv) == ServiceResult(rawAes, Silent)
  {
  }

  /** Code 3 whose RSA decryption succeeds installs the decrypted bytes, whatever key was there before, and sends nothing. */
  lemma KeyInstalled(g: Primitives, entries: map<string, KeyPair>, alias: string,
                     rawAes: Option<Bytes>, msg: Message, iv: Bytes)
    requires |iv| == IvBytes && msg.what == MsgSendEncryptedAesKey && EncryptedAesField in msg.data
    requires DecryptWithRsa(g, entries, alias, msg.data[EncryptedAesField]).Ok?
    ensures ServiceStep(g, entries, alias, rawAes, msg, iv)
         == ServiceResult(Some(DecryptWithRsa(g, entries, alias, msg.data[EncryptedAesField]).value), Silent)
  {
  }

  /** Code 3 whose RSA decryption fails is dropped. */
  lemma KeyInstallFailureDropped(g: Primitives, entries: map<string, KeyPair>, alias: string,
                                 rawAes: Option<Bytes>, msg: Message, iv: Bytes)
    requires |iv| == IvBytes && msg.what == MsgSendEncryptedAesKey && EncryptedAesField in msg.data
    requires DecryptWithRsa(g, entries, alias, msg.data[EncryptedAesField]).Err?
    ensures ServiceStep(g, entries, alias, rawAes, msg, iv) == ServiceResult(rawAes, Silent)
  {
  }

  /** Code 4 before any key is installed, or without its field, is dropped: data is never queued. */
  lemma DataBeforeKeyDropped(g: Primitives, entries: map<string, KeyPair>, alias: string,
                             rawAes: Option<Bytes>, msg: Message, iv: Bytes)
    requires |iv| == IvBytes && msg.what == MsgSendSecureData
    requires rawAes.None? || SecureDataField !in msg.data
    ensures ServiceStep(g, entries, alias, rawAes, msg, iv) == ServiceResult(rawAes, Silent)
  {
  }

  /**
   * Code 4 under an installed key, whose envelope decrypts to `plain`, is answered
   * with exactly one code-5 reply to the sender; its envelope decrypts under the
   * same key to "Service received: " + `plain`. The key is unchanged.
   */
  lemma SecureDataAnswered(g: Primitives, entries: map<string, KeyPair>, alias: string,
                           key: Bytes, msg: Message, iv: Bytes)
    requires GcmCorrect(g) && |iv| == IvBytes
    requires msg.what == MsgSendSecureData && SecureDataField in msg.data && msg.replyTo.Some?
    requires AesDecrypt(g, key, msg.data[SecureDataField]).Ok?
    ensures var r := ServiceStep(g, entries, alias, Some(key), msg, iv);
      && r.rawAes == Some(key)
      && r.outcome.Send?
      && r.outcome.out.to == msg.replyTo.value
      && r.outcome.out.msg.what == MsgSecureResponse
      && r.outcome.out.msg.data.Keys == {SecureResponseField}
      && AesDecrypt(g, key, r.outcome.out.msg.data[SecureResponseField])
         == Ok(ResponsePrefix + AesDecrypt(g, key, msg.data[SecureDataField]).value)
  {
    var plain := AesDecrypt(g, key, msg.data[SecureDataField]).value;
    AesRoundTrip(g, key, iv, ResponsePrefix + plain);
  }

  /** Code 4 whose AES decryption fails is dropped. */
  lemma SecureDataFailureDropped(g: Primitives, entries: map<string, KeyPair>, alias: string,
                                 key: Bytes, msg: Message, iv: Bytes)
    requires |iv| == IvBytes && msg.what == MsgSendSecureData && SecureDataField in msg.data
    requires AesDecrypt(g, key, msg.data[SecureDataField]).Err?
    ensures ServiceStep(g, entries, alias, Some(key), msg, iv) == ServiceResult(Some(key), Silent)
  {
  }

  /** Every code other than 1, 3 and 4 (the responder's own 2 and 5 included) is ignored. */
  lemma OtherCodesIgnored(g: Primitives, entries: map<string, KeyPair>, alias: string,
                          rawAes: Option<Bytes>, msg: Message, iv: Bytes)
    requires |iv| == IvBytes
    requires msg.what != MsgRequestPublicKey && msg.what != MsgSendEncryptedAesKey && msg.what != MsgSendSecureData
    ensures ServiceStep(g, entries, alias, rawAes, msg, iv) == ServiceResult(rawAes, Silent)
  {
  }

  // ---------------------------------------------------------------- properties across all messages

  /** The session key changes only when a code-3 message's RSA decryption succeeds, and then becomes its result. */
  lemma KeyChangesOnlyByInstall(g: Primitives, entries: map<string, KeyPair>, alias: string,
                                rawAes: Option<Bytes>, msg: Message, iv: Bytes)
    requires |iv| == IvBytes
    requires ServiceStep(g, entries, alias, rawAes, msg, iv).rawAes != rawAes
    ensures msg.what == MsgSendEncryptedAesKey && EncryptedAesField in msg.data
    ensures DecryptWithRsa(g, entries, alias, msg.data[EncryptedAesField])
         == Ok(ServiceStep(g, entries, alias, rawAes, msg, iv).rawAes.value)
  {
  }

  /**
   * The responder only ever answers: a reply goes to the sender's reply address,
   * is a code-2 answer to a code-1 request or a code-5 answer to code 4 under an
   * installed key, and never changes the key.
   */
  lemma RepliesOnlyAnswerRequests(g: Primitives, entries: map<string, KeyPair>, alias: string,
                                  rawAes: Option<Bytes>, msg: Message, iv: Bytes)
    requires |iv| == IvBytes
    requires ServiceStep(g, entries, alias, rawAes, msg, iv).outcome.Send?
    ensures var r := ServiceStep(g, entries, alias, rawAes, msg, iv);
      && r.rawAes == rawAes
      && msg.replyTo == Some(r.outcome.out.to)
      && (|| (msg.what == MsgRequestPublicKey && r.outcome.out.msg.what == MsgReplyPublicKey)
          || (msg.what == MsgSendSecureData && rawAes.Some? && r.outcome.out.msg.what == MsgSecureResponse))
  {
  }

  /**
   * Failures of the crypto calls on codes 3 and 4, and every other code, are
   * contained: only a code-1 request can end the responder's process, and only
   * when the key store lacks the identity or the request has no reply address.
   */
  lemma OnlyKeyRequestsCanCrash(g: Primitives, entries: map<string, KeyPair>, alias: string,
                                rawAes: Option<Bytes>, msg: Message, iv: Bytes)
    requires |iv| == IvBytes
    requires ServiceStep(g, entries, alias, rawAes, msg, iv).outcome.Crash?
    ensures msg.what == MsgRequestPublicKey && (alias !in entries || msg.replyTo.None?)
  {
  }

  // ---------------------------------------------------------------- the late read of the reply address

  /**
   * `handleMessage` as written: the code-4 coroutine reads `msg.replyTo` only
   * when it sends the answer, after `handleMessage` has returned. By then the
   * Looper has recycled the message, which clears its reply address.
   * `lateReplyTo` is what that late read sees: `None` once the message is
   * recycled. `ServiceStep` reads the address while the message is handled, as
   * the code-1 branch does.
   */
  function ServiceStepAsWritten(g: Primitives, entries: map<string, KeyPair>, alias: string,
                                rawAes: Option<Bytes>, msg: Message, iv: Bytes,
                                lateReplyTo: Option<Messenger>): (r: ServiceResult)
    requires |iv| == IvBytes
    ensures r.rawAes == ServiceStep(g, entries, alias, rawAes, msg, iv).rawAes
    ensures r.outcome.Send? && msg.what == MsgSendSecureData ==> lateReplyTo == Some(r.outcome.out.to)
    ensures msg.what != MsgSendSecureData ==> r == ServiceStep(g, entries, alias, rawAes, msg, iv)
  {
    if msg.what == MsgSendSecureData then ServiceStep(g, entries, alias, rawAes, msg.(replyTo := lateReplyTo), iv)
    else ServiceStep(g, entries, alias, rawAes, msg, iv)
  }

  /**
   * The late read loses the answer: a code-4 message that decrypts under the
   * installed key, which `ServiceStep` answers, gets no answer at all once the
   * reply address has been cleared; the exception is swallowed by the catch.
   */
  lemma RecycledReplyDropped(g: Primitives, entries: map<string, KeyPair>, alias: string,
                             key: Bytes, msg: Message, iv: Bytes)
    requires GcmCorrect(g) && |iv| == IvBytes
    requires msg.what == MsgSendSecureData && SecureDataField in msg.data && msg.replyTo.Some?
    requires AesDecrypt(g, key, msg.data[SecureDataField]).Ok?
    ensures ServiceStep(g, entries, alias, Some(key), msg, iv).outcome.Send?
    ensures ServiceStepAsWritten(g, entries, alias, Some(key), msg, iv, None) == ServiceResult(Some(key), Silent)
  {
    SecureDataAnswered(g, entries, alias, key, msg, iv);
  }
}
