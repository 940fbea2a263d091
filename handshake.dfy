/**
 * The two processes composed: the initiator binds, the three-message handshake
 * runs, the user sends "hello" and the responder's answer comes back. Messages
 * are delivered at once and in order; the responder's identity is generated
 * on creation.
 */
module Handshake {
  import opened Wrappers
  import opened Crypto
  import opened Protocol
  import opened Service
  import opened Client

  /**
   * After the handshake both sides hold the same 128-bit session key, and the
   * string "hello" sent by the initiator comes back as the single response
   * "Service received: hello". `identity` is the key pair the responder's key
   * store generates; `dataIv` and `responseIv` are the IVs the two encryptions draw.
   * The responder is `SecureService.HandleMessage`, which reads the reply address
   * while the message is handled (see `Service.RecycledReplyDropped`).
   */
  method HelloRoundTrip(g: Primitives, identity: KeyPair, serviceAddress: Messenger, clientAddress: Messenger,
                        dataIv: Bytes, responseIv: Bytes)
    returns (responderKey: Option<Bytes>, initiatorKey: Bytes, responses: seq<string>)
    requires GcmCorrect(g) && RsaAxioms(g) && |dataIv| == IvBytes && |responseIv| == IvBytes
    ensures |initiatorKey| == AesKeyBytes && responderKey == Some(initiatorKey)
    ensures responses == ["Service received: hello"]
  {
    var serviceStore := new KeyStore();
    var responder := new SecureService(g, serviceStore, identity);
    var clientStore := new KeyStore();
    var initiator := new SecureIpcViewModel(g, clientStore, clientAddress);
    var entries := serviceStore.entries;

    // 1: the initiator binds and asks for the public key; 2: the responder answers it.
    var request := initiator.OnServiceConnected(serviceAddress);
    PublicKeyRequestAnswered(g, entries, ServiceKeyAlias, None, request.msg, responseIv);
    var keyReply := responder.HandleMessage(request.msg, responseIv);
    assert keyReply.out.to == clientAddress;

    // 3: the initiator installs a fresh key and sends it under RSA; the responder installs it.
    ghost var before := initiator.State();
    var keyTransport := initiator.HandleReply(keyReply.out.msg);
    ExchangedKeyReachesResponder(g, before, clientAddress, keyReply.out.msg, initiator.rawAes[..], entries, ServiceKeyAlias);
    PublicKeyReplyExchangesKey(g, before, clientAddress, keyReply.out.msg, initiator.rawAes[..]);
    assert initiator.responses == [];
    assert keyTransport.out.to == serviceAddress;
    KeyInstalled(g, entries, ServiceKeyAlias, None, keyTransport.out.msg, responseIv);
    var installed := responder.HandleMessage(keyTransport.out.msg, responseIv);
    assert responder.rawAes == Some(initiator.rawAes[..]);

    // 4: the user sends "hello"; 5: the responder answers under the same key.
    var key := initiator.rawAes[..];
    var sent := initiator.SendSecureMessage("hello", dataIv);
    AesRoundTrip(g, key, dataIv, "hello");
    SecureDataAnswered(g, entries, ServiceKeyAlias, key, sent.value.msg, responseIv);
    var answer := responder.HandleMessage(sent.value.msg, responseIv);
    assert answer.out.to == clientAddress;

    // The initiator decrypts the answer and appends it.
    SecureResponseAppended(g, initiator.State(), clientAddress, answer.out.msg, key);
    var appended := initiator.HandleReply(answer.out.msg);
    assert initiator.responses == [ResponsePrefix + "hello"];
    assert ResponsePrefix + "hello" == "Service received: hello";

    responderKey, initiatorKey, responses := responder.rawAes, initiator.rawAes[..], initiator.responses;
  }
}
