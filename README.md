# Secure IPC handshake and messaging, modelled in Dafny

Two Android processes talk over Messenger, which carries discrete messages:
an integer code, a bundle of byte arrays, and an optional reply address. The
**responder** (`SecureService`) has a long-lived RSA identity in its key store.
The **initiator** (`SecureIpcViewModel`) binds to it and runs a three-message
handshake:

1. The initiator sends code 1, a request for the public key.
2. The responder answers with code 2, its X.509-encoded public key.
3. The initiator generates a 128-bit AES key and sends it RSA-encrypted (PKCS#1 v1.5) as code 3.

After that, the initiator sends user text as code 4, sealed with AES-GCM under
the session key. Each envelope is `iv ‖ ciphertext‖tag`, with the 96-bit IV of
NIST SP 800-38D section 8.2. The responder answers each one as code 5 with
`"Service received: " + text`, sealed under the same key.

The model has one module per part of the system:

- `Crypto` (crypto.dfy) is the shared `CryptoHelper`. It holds the envelope
  framing, the RSA calls and the key store. The library primitives (AES-GCM,
  RSA, X.509 encoding) are the fields of a `Primitives` value. What the protocol
  relies on is stated as hypotheses, collected in `CryptoAxioms`: GCM
  correctness, that whatever opens is the sealing of what it opens to, that a
  changed byte or a changed IV makes the tag check fail, key separation, and
  RSA correctness.
  `Witness.ToyPrimitivesMeetAxioms` shows that an (insecure) instance
  meets all of these, so the lemmas that assume them are not vacuous.
- `Utf8` (utf8.dfy) is the UTF-8 conversion the envelope functions apply to text
  (RFC 3629). Its round trip is proved.
- `Protocol` (protocol.dfy) holds the message codes, field names, messages and
  the outcome of handling one message. The outcome is one of three things:
  nothing visible, exactly one message sent, or an uncaught exception that
  ends the process.
- `Service` (service.dfy) is the responder. The class `SecureService` has the
  mutable optional session key, and its handler is proved equal to the step
  function `ServiceStep`. Lemmas about `ServiceStep` state the behaviour per
  message code and across all messages.
- `Client` (client.dfy) is the initiator. The class `SecureIpcViewModel` has
  the bound service's messenger, a 16-byte key buffer that is overwritten in
  place, and the append-only response list. Its reply handler is proved equal
  to `ReplyStep`. `RunReplies` processes a sequence of replies and is used
  for the properties over time.
- `Handshake` (handshake.dfy) composes the two classes. After the handshake both
  sides hold the same key, and `"hello"` comes back as
  `"Service received: hello"`.

Each handler runs as one atomic step, in arrival order. Randomness is an input:
the GCM IV of each encryption is a parameter, and the generated AES key and RSA
key pair are chosen nondeterministically or passed in.

## Model

| member | source | states |
|---|---|---|
| `Utf8.Encode` | shared/src/main/java/com/task/ipc/shared/CryptoHelper.kt:86 | UTF-8 encoding takes one to four bytes per character |
| `Utf8.Decode` | shared/src/main/java/com/task/ipc/shared/CryptoHelper.kt:97 | decoding never fails and yields at most one character per byte |
| `Utf8.RoundTrip` | shared/src/main/java/com/task/ipc/shared/CryptoHelper.kt:86-97 | decoding the UTF-8 encoding of any string, multi-byte characters included, gives the string back |
| `Utf8.EncodeInjective` | shared/src/main/java/com/task/ipc/shared/CryptoHelper.kt:86 | two strings with the same UTF-8 bytes are equal |
| `Crypto.AesEncrypt` | shared/src/main/java/com/task/ipc/shared/CryptoHelper.kt:81-88 | succeeds exactly for AES key lengths 16/24/32; the envelope's first 12 bytes are the cipher's IV and the rest is the GCM output over the UTF-8 bytes |
| `Crypto.AesDecrypt` | shared/src/main/java/com/task/ipc/shared/CryptoHelper.kt:90-98 | success needs a valid key and at least 12 bytes; an envelope shorter than 12 bytes fails at the slice; with a valid key it fails exactly when the GCM tag check on bytes 0..12 / 12.. fails |
| `Crypto.AesRoundTrip` | shared/src/main/java/com/task/ipc/shared/CryptoHelper.kt:81-98 | for every string, the empty one included, decrypting its encryption under the same valid key gives it back |
| `Crypto.AesWrongKeyRejected` | shared/src/main/java/com/task/ipc/shared/CryptoHelper.kt:90-96 | an envelope sealed under one key fails to decrypt under any other key |
| `Crypto.AesDecryptOnlyAuthentic` | shared/src/main/java/com/task/ipc/shared/CryptoHelper.kt:92-97 | whatever decrypts is its IV followed by the GCM sealing, under that key and IV, of bytes that decode to the result |
| `Crypto.AesTamperRejected` | shared/src/main/java/com/task/ipc/shared/CryptoHelper.kt:92-96 | changing any single byte of an envelope, in the IV or in ciphertext‖tag, makes decryption under the key fail |
| `Crypto.EncryptWithRsa` | shared/src/main/java/com/task/ipc/shared/CryptoHelper.kt:51-56 | a failure of the X.509 decoding or the PKCS#1 encryption is an RSA error |
| `Crypto.RsaPublicKey` | shared/src/main/java/com/task/ipc/shared/CryptoHelper.kt:39-43 | the encoded public key is available exactly when the alias is in the store |
| `Crypto.DecryptWithRsa` | shared/src/main/java/com/task/ipc/shared/CryptoHelper.kt:45-62 | decryption can succeed only under an alias the store holds |
| `Crypto.RsaKeyTransport` | shared/src/main/java/com/task/ipc/shared/CryptoHelper.kt:51-62 | data of at most 245 bytes, encrypted under the public key exported for an alias, decrypts under that alias to itself |
| `Crypto.RsaKeyIfNeededKeepsEntries` | shared/src/main/java/com/task/ipc/shared/CryptoHelper.kt:22-37 | afterwards the alias has a key pair; no stored key pair is replaced or removed; the only new key is the alias |
| `Crypto.RsaKeyIfNeededIdempotent` | shared/src/main/java/com/task/ipc/shared/CryptoHelper.kt:22-37 | a second call changes nothing, whatever key pair it would generate |
| `Crypto.CryptoHelper.GenerateRsaKeyIfNeeded` | shared/src/main/java/com/task/ipc/shared/CryptoHelper.kt:22-37 | the store afterwards is the conditional insert of the generated pair under the alias |
| `Crypto.CryptoHelper.StoreAesKeyIfNeeded` | shared/src/main/java/com/task/ipc/shared/CryptoHelper.kt:64-73 | never modifies the store (no frame); throws only for an empty key when the alias is absent |
| `Crypto.CryptoHelper.GenerateRawAesKey` | shared/src/main/java/com/task/ipc/shared/CryptoHelper.kt:75-79 | returns a 16-byte (128-bit) key that AES accepts |
| `Service.ServiceStep` | service-app/src/main/java/com/task/ipc/service_app/SecureService.kt:50-113 | only code 3 can change the session key; every reply goes to the sender's reply address |
| `Service.SecureService.constructor` | service-app/src/main/java/com/task/ipc/service_app/SecureService.kt:34-43 | on creation the identity is generated if absent and no session key is held |
| `Service.SecureService.HandleMessage` | service-app/src/main/java/com/task/ipc/service_app/SecureService.kt:50-113 | the new session key and the outcome are those of `ServiceStep` on the old key |
| `Service.PublicKeyRequestAnswered` | service-app/src/main/java/com/task/ipc/service_app/SecureService.kt:56-63 | code 1 gets exactly one code-2 reply to the sender with the encoded public key under "public_key"; the key is unchanged |
| `Service.KeyInstallWithoutFieldDropped` | service-app/src/main/java/com/task/ipc/service_app/SecureService.kt:68-72 | code 3 without "encrypted_aes" leaves the key unchanged and sends nothing |
| `Service.KeyInstalled` | service-app/src/main/java/com/task/ipc/service_app/SecureService.kt:73-76 | code 3 whose RSA decryption succeeds installs the decrypted bytes whatever key was there and sends nothing |
| `Service.KeyInstallFailureDropped` | service-app/src/main/java/com/task/ipc/service_app/SecureService.kt:77-79 | code 3 whose RSA decryption fails leaves the key unchanged and sends nothing |
| `Service.DataBeforeKeyDropped` | service-app/src/main/java/com/task/ipc/service_app/SecureService.kt:85-94 | code 4 with no key installed, or without "secure_data", is dropped with no reply and no state change |
| `Service.SecureDataAnswered` | service-app/src/main/java/com/task/ipc/service_app/SecureService.kt:95-105 | code 4 that decrypts to `plain` gets exactly one code-5 reply to the sender whose "secure_response" decrypts under the same key to "Service received: " + `plain` |
| `Service.SecureDataFailureDropped` | service-app/src/main/java/com/task/ipc/service_app/SecureService.kt:106-108 | code 4 whose AES decryption fails is dropped with no reply and no state change |
| `Service.OtherCodesIgnored` | service-app/src/main/java/com/task/ipc/service_app/SecureService.kt:55-111 | any code but 1, 3 and 4 (2 and 5 included) is ignored |
| `Service.KeyChangesOnlyByInstall` | service-app/src/main/java/com/task/ipc/service_app/SecureService.kt:66-81 | the key changes only on a code 3 whose decryption succeeds, and becomes its result |
| `Service.RepliesOnlyAnswerRequests` | service-app/src/main/java/com/task/ipc/service_app/SecureService.kt:55-111 | every reply goes to the sender, answers code 1 with code 2 or code 4 (under an installed key) with code 5, and leaves the key as it was |
| `Service.OnlyKeyRequestsCanCrash` | service-app/src/main/java/com/task/ipc/service_app/SecureService.kt:55-111 | crypto failures on codes 3 and 4 are contained; only code 1 without an identity or without a reply address throws |
| `Service.ServiceStepAsWritten` | service-app/src/main/java/com/task/ipc/service_app/SecureService.kt:83-110 | with the code-4 coroutine reading the reply address late, any answer goes to what that late read sees; the key and every other code behave as in `ServiceStep` |
| `Service.RecycledReplyDropped` | service-app/src/main/java/com/task/ipc/service_app/SecureService.kt:95-108 | a code 4 that decrypts, which `ServiceStep` answers, gets no answer when the late read finds the reply address cleared |
| `Client.ReplyStep` | app/src/main/java/com/task/ipc/comm/SecureIpcViewModel.kt:42-72 | the key buffer keeps its length through every reply |
| `Client.SecureIpcViewModel.constructor` | app/src/main/java/com/task/ipc/comm/SecureIpcViewModel.kt:33-40 | starts unbound, with a fresh all-zero 16-byte buffer and no responses |
| `Client.SecureIpcViewModel.OnServiceConnected` | app/src/main/java/com/task/ipc/comm/SecureIpcViewModel.kt:105-111 | records the service's messenger and sends it exactly one code-1 message whose reply address is the reply messenger; nothing else changes |
| `Client.SecureIpcViewModel.OnServiceDisconnected` | app/src/main/java/com/task/ipc/comm/SecureIpcViewModel.kt:113-116 | clears the messenger and changes nothing else |
| `Client.SecureIpcViewModel.SendSecureMessage` | app/src/main/java/com/task/ipc/comm/SecureIpcViewModel.kt:87-102 | sends nothing exactly when unbound; otherwise one code-4 message to the service with the reply messenger whose only field "secure_data" is `aesEncrypt(rawAES, text)`; no state changes |
| `Client.SecureIpcViewModel.CopyInto` | app/src/main/java/com/task/ipc/comm/SecureIpcViewModel.kt:49 | the buffer is overwritten in place at the front with the source bytes, the rest kept |
| `Client.SecureIpcViewModel.HandleReply` | app/src/main/java/com/task/ipc/comm/SecureIpcViewModel.kt:42-72 | the new state and outcome are those of `ReplyStep`, the buffer standing for the generated key |
| `Client.PublicKeyReplyExchangesKey` | app/src/main/java/com/task/ipc/comm/SecureIpcViewModel.kt:45-58 | code 2 overwrites the buffer with the new key and nothing else; if bound, the code-3 message carries `encryptWithRSA(publicKey, newKey)` and the reply messenger; an RSA failure throws |
| `Client.ExchangedKeyReachesResponder` | app/src/main/java/com/task/ipc/comm/SecureIpcViewModel.kt:48-57 | under the responder's exported public key, the key sent is the key installed: the responder's RSA decryption recovers it |
| `Client.SecureResponseAppended` | app/src/main/java/com/task/ipc/comm/SecureIpcViewModel.kt:61-67 | code 5 that decrypts appends exactly its plaintext to the end of the responses and changes nothing else |
| `Client.SecureResponseFailureCrashes` | app/src/main/java/com/task/ipc/comm/SecureIpcViewModel.kt:62-66 | code 5 that does not decrypt throws, adds no response and changes nothing |
| `Client.MissingFieldCrashes` | app/src/main/java/com/task/ipc/comm/SecureIpcViewModel.kt:44-70 | code 2 or 5 missing its field throws at `!!` instead of being dropped, and changes nothing |
| `Client.OtherRepliesIgnored` | app/src/main/java/com/task/ipc/comm/SecureIpcViewModel.kt:44-70 | codes other than 2 and 5 are ignored |
| `Client.ReplyStepFrame` | app/src/main/java/com/task/ipc/comm/SecureIpcViewModel.kt:42-72 | a reply never changes the binding, grows the responses by at most one entry at the end, and changes the buffer only on code 2 |
| `Client.RunReplies` | app/src/main/java/com/task/ipc/comm/SecureIpcViewModel.kt:42-72 | over any run of replies the buffer keeps its length and the binding is unchanged |
| `Client.KeyUnchangedUntilKeyReply` | app/src/main/java/com/task/ipc/comm/SecureIpcViewModel.kt:35-49 | over any run of replies with no code 2, the buffer keeps its value |
| `Client.SendBeforeExchangeUsesZeroKey` | app/src/main/java/com/task/ipc/comm/SecureIpcViewModel.kt:35-49 | from the initial all-zero buffer, after replies with no code 2, the buffer a send seals under is still all zeros, and decrypting with the all-zero key recovers the text |
| `Client.ResponsesAppendOnly` | app/src/main/java/com/task/ipc/comm/SecureIpcViewModel.kt:61-67 | over any run of replies the earlier responses stay, in order, at the front |
| `Handshake.HelloRoundTrip` | app/src/main/java/com/task/ipc/comm/SecureIpcViewModel.kt:42-111 | after connect and the three-message handshake both sides hold the same 16-byte key, and "hello" comes back as the single response "Service received: hello" (with the responder reading the reply address while it handles the message; see Findings) |

## Left out

- Coroutine dispatch: each handler is one atomic step in arrival order. The
  race between a code-3 coroutine and a code-4 coroutine on the responder is
  not modelled. Neither is the initiator's coroutine re-reading the messenger
  some time after the callback. The responder's code-4 coroutine reads
  `msg.replyTo` late, after the handler has returned (SecureService.kt:104).
  `Service.ServiceStep` reads it while the message is handled. The late read is
  modelled only by `Service.ServiceStepAsWritten` (see Findings).
- The cryptography itself: AES-GCM, RSA with PKCS#1 v1.5 padding and X.509
  decoding are abstract functions. Their assumptions are idealised.
  Tamper rejection and key separation hold for real GCM only with overwhelming
  probability. Tamper rejection is stated for one changed byte, not for
  arbitrary edits. The exact ciphertext length is not stated.
- RSA encryption is a function of key and data. The random PKCS#1 v1.5 padding
  is not modelled.
- Crypto.RsaAxioms: the 245-byte limit assumes the store's default 2048-bit
  key. The key size is not set explicitly where the key is generated.
- The Android KeyStore is a map from alias to a key-pair handle. Store
  unavailability (`KeyStoreException`) is not modelled. The null certificate
  or key of a missing alias becomes the error `KeyNotFound`.
- Kotlin bytes are signed. The model uses unsigned octets and does no
  arithmetic on them outside UTF-8.
- Kotlin strings are UTF-16 and may contain lone surrogates, which the UTF-8
  encoder replaces with `?`. A Dafny string holds only scalar values, so that
  case is not modelled.
- Utf8.Decode: each malformed byte becomes one U+FFFD. Java's decoder
  replaces each maximal ill-formed subsequence instead. This matters only if
  a peer seals bytes that are not UTF-8, which neither side does.
- What follows a process crash (restart, rebinding) is not modelled.
  `Outcome.Crash` is the last step of a run.
- Foreground-service and notification plumbing, `onBind`, `onDestroy`,
  `bindService`, `onCleared`, the Toast and all logging are not modelled.
  A user send while unbound only shows as "nothing sent".
- Binder and Bundle serialisation, including the class-loader fix, are not
  modelled. A message is a code, a map of byte fields and an optional reply
  address. A field of the wrong type reads as absent.
- MainActivity.kt, the user interface, is not part of this model.

## Design versus code

Where the protocol's design description and the code differ, the model
follows the code:

- The design treats an established session as final. The responder instead
  installs a key on every successful code 3, replacing the previous one
  (`Service.KeyInstalled`).
- The design drops a secure response that arrives before a key is agreed, and
  drops malformed input silently. The initiator instead decrypts every code 5
  under its buffer, which is all zeros before the exchange. A failed
  decryption, or a code 2 or code 5 missing its field, throws
  (`Client.MissingFieldCrashes`, `Client.SecureResponseFailureCrashes`).
- The design rejects a send before the transport is connected. The initiator
  rejects only that. Once bound but before the key exchange, it seals user
  text under the all-zero key (`Client.SendBeforeExchangeUsesZeroKey`).

## Findings

| source | as written | input that shows it | evidently intended | confidence | as-written member | corrected member |
|---|---|---|---|---|---|---|
| service-app/src/main/java/com/task/ipc/service_app/SecureService.kt:104 | the code-4 coroutine reads `msg.replyTo` when it sends the answer, after `handleMessage` has returned and the Looper has recycled the message, which clears `replyTo`; the resulting NullPointerException is swallowed by the catch at lines 106-108 | a code-4 message that decrypts under the installed key, with a reply address, whose coroutine reaches line 104 after the message was recycled | read the reply address in `handleMessage` before launching the coroutine, so the code-5 answer reaches the initiator | medium; not executed; rests on the Looper recycling a dispatched message before the coroutine reaches the send | `Service.RecycledReplyDropped` (on `Service.ServiceStepAsWritten`) | `Service.SecureDataAnswered` (on `Service.ServiceStep`, which `Service.SecureService.HandleMessage` and `Handshake.HelloRoundTrip` use) |
