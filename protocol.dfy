/**
 * The messages the two processes exchange over Android's Messenger transport:
 * an integer code (`Message.what`), a bundle of named byte arrays and an
 * optional reply address (`Message.replyTo`), and what handling one message
 * leads to.
 */
module Protocol {
  import opened Wrappers
  import Crypto

  /** The initiator asks for the responder's public key. */
  const MsgRequestPublicKey := 1
  /** The responder's public key, under `PublicKeyField`. */
  const MsgReplyPublicKey := 2
  /** The RSA-encrypted session key, under `EncryptedAesField`. */
  const MsgSendEncryptedAesKey := 3
  /** An AES-GCM envelope of user text, under `SecureDataField`. */
  const MsgSendSecureData := 4
  /** An AES-GCM envelope of the responder's answer, under `SecureResponseField`. */
  const MsgSecureResponse := 5

  const PublicKeyField := "public_key"
  const EncryptedAesField := "encrypted_aes"
  const SecureDataField := "secure_data"
  const SecureResponseField := "secure_response"

  /** The prefix the responder puts before every plaintext it receives. */
  const ResponsePrefix := "Service received: "

  /** The address of a Messenger, to which messages can be sent. */
  datatype Messenger = Messenger(id: nat)

  datatype Message = Message(what: int, data: map<string, Crypto.Bytes>, replyTo: Option<Messenger>)

  /** A message handed to the transport for delivery to `to`. */
  datatype Outgoing = Outgoing(to: Messenger, msg: Message)

  /** Why a handler threw an exception nothing catches. */
  datatype Fault =
    | MissingField(key: string)    // `getByteArray(key)!!` on an absent field
    | NullReplyTo                  // `msg.replyTo.send(...)` on a message without a reply address
    | CryptoFault(error: Crypto.CryptoError)

  /**
   * What handling one message leads to: nothing visible (handled, ignored or
   * dropped), exactly one message sent, or an uncaught exception, which ends
   * the process.
   */
  datatype Outcome = Silent | Send(out: Outgoing) | Crash(fault: Fault)
}
