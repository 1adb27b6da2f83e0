# Verified model of knust

knust is a KNX library: it talks KNX/IP over UDP multicast, UDP tunnels and TCP, secures those links (KNX IP Secure) and
group payloads (KNX Data Secure), reads and writes keyring files, and paces and queues telegrams. This project models the
parts of it where something can go wrong over a whole run or a whole input, and proves what they promise.

## What is modelled

| files | subject |
|---|---|
| `Bytes`, `Text`, `Numerals` | octets, big-endian numbers, XOR; searching, splitting, replacing, decimal and hexadecimal; which texts are read as numbers, addresses and keys |
| `Primitives` | CBC-MAC, counter mode, padding |
| `SessionSteps`, `SecureSession`, `SessionRuns`, `SecureChannel`, `Handshake` | KNX IP Secure: handshake and sequence-numbered frames |
| `GroupSecurity` | secured group payloads and replay protection per sender |
| `XmlText`, `XmlScan`, `XmlElements`, `Addresses`, `Keyring`, `KeyringTrip`, `KeyringEntries`, `KeyringInterfaces`, `KeyringElements`, `KeyringTypes`, `KeyringFile`, `KeyringParser` | the keyring writer and the substring-search reader |
| `Cemi`, `CemiTrip`, `CemiCodec`, `Apci`, `KnxIp`, `FrameTransport`, `Telegrams` | the codecs, the stack they form, and re-framing of a byte stream |
| `AddressProbe` | probing for, and choosing, an individual address |
| `TunnelLink`, `TunnelSessions` | requests and acknowledgements between tunnel server and client, and whole sessions of them |
| `QueueSteps`, `QueueOrder`, `QueueDrain`, `EntryHeap`, `TelegramQueue` | the telegram queue |
| `RateLimit`, `Heartbeat`, `Backoff` | token bucket, tunnel-lost latch, reconnection delays |

Where the source updates objects or runs loops, a class or method does the same and is proved equal to a step function on
values; what holds over runs and inputs is then proved about the step functions.

Octets are integers below 256, so masks and shifts are written as division and remainder. AES, SHA-256, PBKDF2 and X25519
are function values in a `Suite`; the one thing assumed of them, where it is needed, is the predicate `DiffieHellman`.
Clocks, jitter, oversleeping, the arrival of reads, and what the network does to a datagram are parameters, quantified over.

## Where the code does not do what one might expect

- A secure frame with number 0 can be accepted any number of times (`SecureChannel.SecondDelivery`).
- The interface type is written to the keyring without escaping and unescaped when read (`KeyringFile.TypeActsAsElement`,
  `KeyringInterfaces.InterfaceRoundTrip`, `KeyringFile.KeyringRoundTrip`).
- A text value that ends in the name of a later attribute and `=` hides that attribute (`XmlScan.ExtractFromTag`).
- An element that ends with a closing tag is read past it when any later element closes itself (`XmlScan.ScanLongElement`).
- A group write of 255 octets or more, or of one octet above 63, does not arrive as sent (`Telegrams.WriteArrives`). The
  builder sends every telegram at normal priority, as a read or a write.
- The switch for priority processing has no effect: with it off the comments promise first-in-first-out order, but the heap
  still orders by priority (src/transport/queue.rs:199-204). `QueueDrain.OvertakenByUrgency` is an instance, and
  `QueueDrain.FifoIffRanked` says exactly when the order is kept. The model follows the code.
- The comment at src/transport/heartbeat.rs:109 says a failure returns whether the tunnel is lost. `Heartbeat.ReportIsFlag`
  says exactly when that is so: it fails when a lost tunnel has answered again (`ReportAfterRecovery`) and when the counter
  has wrapped (`ReportAfterWrap`). A limit of zero acts as one.
- The first reconnection delay is not capped (`Backoff.WithinMaximum`); a jittered delay can exceed the maximum by a quarter
  (`Backoff.JitterExceedsMaximum`).
- `acquire` never returns with rate zero and no token left (`RateLimit.NoRateNoGrant`).
- The tunnel server takes any acknowledgement on the channel for the one it waits for. A late positive one can hide a loss
  (`TunnelSessions.LateAckHidesLoss`); `TunnelSessions.SuccessMeansDelivery` says exactly when none does. A late negative one
  can fail a send that arrived (`TunnelSessions.LateCopyFailsSend`); `TunnelSessions.RejectedExactly` and
  `TunnelSessions.RejectedByLateCopies` say exactly when sends fail.
- A telegram the client acknowledges is lost when its queue has no room (`TunnelSessions.NoRoomLosesTelegram`);
  `TunnelSessions.QueuedIsAccepted` says exactly when none is.
- A KNX/IP header that announces fewer than six octets makes the parser slice out of range (`KnxIp.UnsliceableExactly`); the
  model gives that input an error of its own. It can come from a datagram, not from a byte stream
  (`Telegrams.StreamIsSliceable`). The address probe ends on it (`AddressProbe.ReceiveUntilSignal`); `Telegrams` takes one
  datagram at a time and treats it as one that carries no telegram.

## Model

| member | source | states |
|---|---|---|
| `Primitives.CalculateMacCbc` | src/security/primitives.rs:85-140 | The in-place block loop over one buffer, with additional data and payload joined and padded once at the very end, computes the recursive CBC-MAC `MacCbc` |
| `Primitives.ChainBlocks` | src/security/primitives.rs:124-136 | The loop that XORs each block into `y` and encrypts it leaves the recursive `CbcMac` of all blocks |
| `Primitives.CbcMacAppend` | src/security/primitives.rs:124-136 | CBC-MAC over a concatenation of whole blocks is CBC-MAC of the second part started from that of the first |
| `Primitives.BytePad` | src/security/primitives.rs:36-45 | The result is the input followed by the fewest zeros that fill the last block |
| `Primitives.MacInputLayout` | src/security/primitives.rs:105-111 | What is authenticated, by offsets: 16 octets of block 0, the length of the additional data in 16 bits, the additional data, the payload |
| `Primitives.MacInputDetermines` | src/security/primitives.rs:105-111 | Below 2^16 octets of additional data, two authenticated texts are equal if and only if block 0, additional data and payload are |
| `Primitives.ChainedDetermines` | src/security/primitives.rs:105-114 | When block 0 ends with the length of the payload, so are the padded texts that are chained |
| `Primitives.MacIsChained` | src/security/primitives.rs:85-140 | The MAC from its definition on octets: each block of 16 octets, every one of them named by its position in block 0, length, additional data, payload or padding, is XORed in and encrypted in turn; and both length errors |
| `Primitives.CounterCounts` | src/security/primitives.rs:184-192 | Counter block k is the 128-bit number k steps on, modulo 2^128, and the blocks of fewer than 2^128 steps all differ |
| `Primitives.CtrOctets` | src/security/primitives.rs:151-250 | Octet by octet: the MAC takes the start of the keystream and the payload what follows, each octet of the keystream being that of the encrypted counter block at its position; and both length errors |
| `Primitives.CtrCipher.ApplyKeystream` | src/security/primitives.rs:184-192 | XORs the buffer in place with the keystream from the current position on and advances the position by its length, so the MAC and the payload share one keystream |
| `Primitives.RunCtr` | src/security/primitives.rs:206-250 | The two keystream applications of `encrypt_ctr` (and of `decrypt_ctr`, which runs the same steps) give the MAC XORed with the start of the keystream and the payload with what follows it, or the key and counter length errors |
| `Primitives.CtrRoundTrip` | src/security/primitives.rs:151-250 | Decrypting what was encrypted under the same key and counter block returns the MAC and the payload, for every length of both |
| `Primitives.CtrXorTwice` | src/security/primitives.rs:151-250 | Applying one stretch of keystream twice restores the text |
| `Bytes.XorOctetsLaws` | src/security/primitives.rs:52-61 | XOR of equally long octet strings is commutative and undoes itself |
| `Bytes.XorByteAt` | src/security/primitives.rs:52-61 | Bit by bit, the exclusive or of two octets |
| `Bytes.U16IsBigEndian` | src/security/primitives.rs:106-106 | A 16-bit field is the big-endian number of two octets |
| `Bytes.ToBeFromBe` | src/security/session.rs:480-544 | Reading the n big-endian octets of a number back yields it modulo 256^n |
| `Bytes.ToBeAt` | src/security/session.rs:538-544 | The octet at each position of a big-endian number, the most significant first |
| `SecureSessions.SecureSession.constructor` | src/security/session.rs:102-120 | A new session has no key, no id, both counters at zero and is uninitialized |
| `SecureSessions.SecureSession.Initialize` | src/security/session.rs:123-133 | Stores the key pair, resets both counters and starts handshaking; everything else stays |
| `SecureSessions.SecureSession.ProcessSessionResponse` | src/security/session.rs:154-204 | New state, returned MAC and error are those of the step function, including the failing MAC check |
| `SecureSessions.SecureSession.GenerateAuthenticateMac` | src/security/session.rs:207-231 | The MAC over user id and the XOR of both public keys under the password key |
| `SecureSessions.SecureSession.ProcessSessionRequest` | src/security/session.rs:259-297 | New state and response MAC are those of the step function |
| `SecureSessions.SecureSession.VerifyAuthenticateMac` | src/security/session.rs:317-354 | Authenticates exactly when the user is the configured one and the MAC is the expected one |
| `SecureSessions.SecureSession.CompleteAuthentication` | src/security/session.rs:362-373 | Authenticated if and only if the status code is zero, and failed otherwise |
| `SecureSessions.SecureSession.NextSequenceNumber` | src/security/session.rs:538-544 | Returns the current number and counts up, in 64 bits |
| `SecureSessions.SecureSession.EncryptFrame` | src/security/session.rs:381-434 | The buffer built by appending header, id, number, serial, tag, sealed payload and sealed MAC is the sealed frame of the step function, and the counter moves by one |
| `SecureSessions.SecureSession.DecryptFrame` | src/security/session.rs:443-535 | Every check in the order of the source; the counter moves only when the frame is accepted |
| `SecureSessions.SecureSession.Close` | src/security/session.rs:547-553 | Zeroes the key and closes; everything else stays |
| `SessionSteps.VerifiesExactlyTheMac` | src/security/session.rs:180-189 | A received MAC passes exactly when it is the MAC the receiver computes itself |
| `SessionSteps.ResponseOutcome` | src/security/session.rs:154-204 | Every response: accepted exactly when a handshake was begun and, if a device code is configured, the MAC is the one of that code; then octet i of the key is octet i of the hash of the shared secret, and only key and id change |
| `SessionSteps.RequestOutcome` | src/security/session.rs:259-297 | Every request: accepted exactly when a handshake was begun; octet i of the key is octet i of the hash of the shared secret, and the answer is the MAC of the device code or zeros |
| `SessionSteps.LoginOutcome` | src/security/session.rs:317-354 | Every login: accepted exactly for the configured user with the MAC of the configured password; a wrong user or MAC is no error |
| `SessionSteps.ResponseDataOctets` | src/security/session.rs:169-178 | The authenticated data of the response, octet by octet: header, session id, XOR of both public keys |
| `SessionSteps.AuthenticateDataOctets` | src/security/session.rs:207-231 | The authenticated data of the login, octet by octet: header, reserved octet, user id, XOR of both public keys |
| `SessionSteps.HandshakeMacOctets` | src/security/session.rs:180-189 | A handshake MAC is the CBC-MAC over that data with a zero block 0 and no payload, masked with one fixed counter block |
| `SessionRuns.KeyAndStateExactly` | src/security/session.rs:102-553 | In every life of a session, any calls in any order: it holds a key exactly when a handshake message was accepted since it was last closed, its key is zeros otherwise, and it is authenticated exactly when an accepted login or a zero status was the last call that decides that |
| `SessionRuns.SealsExactlyWhenKeyed` | src/security/session.rs:381-450 | In every life a frame is sealed exactly when there is such a key, and opening is refused for want of a key exactly when there is none |
| `SessionRuns.ClosedUntilHandshake` | src/security/session.rs:443-553 | After a close, whatever calls follow, every seal and every open is refused, the key is zeros and nothing changes, until a handshake message is accepted |
| `SessionRuns.CountsSealed` | src/security/session.rs:123-133 | In every life the next number is the number of frames sealed since the handshake was begun, modulo 2^64 |
| `SessionRuns.CountsOpened` | src/security/session.rs:480-535 | In every life the number below which frames are stale is that of the last frame opened since the handshake was begun |
| `SessionSteps.DecryptFrame` | src/security/session.rs:443-535 | Whatever the octets: an error leaves the session unchanged, and a success changes the receive counter, to the number of the frame, and nothing else |
| `SecureChannel.SealedLayout` | src/security/session.rs:381-434 | A sealed frame has the announced length and every field of it can be cut out again at its offset |
| `SecureChannel.SealedOctets` | src/security/session.rs:381-434 | A sealed frame octet by octet up to its ciphertext: service code, total length, 48 bits of the counter, serial number and tag of zeros |
| `SecureChannel.WrapperOctets` | src/security/session.rs:381-434 | And from there on: the plaintext masked from the second counter block, the MAC over header, id and plaintext masked with the first |
| `SecureChannel.FrameTextDetermines` | src/security/session.rs:398-412 | What the MAC of a frame chains determines header, session id, number, serial number, tag and plaintext |
| `SecureChannel.RefusedExactly` | src/security/session.rs:443-535 | Which refusal arbitrary octets draw: no key, too short, another session, a stale number, each exactly when; what passes these fails only for its MAC |
| `SecureChannel.OpenSealed` | src/security/session.rs:381-535 | A receiver with the same key and session refuses a genuine frame exactly when its number is stale, and otherwise returns the sealed plaintext and remembers the number |
| `SecureChannel.AcceptsExactlySealed` | src/security/session.rs:443-535 | Over arbitrary octets, a frame is accepted with a plaintext exactly when it is that plaintext sealed under the own key and session and its number is not stale; header, serial number and tag may be any |
| `SecureChannel.EncryptAllSeals` | src/security/session.rs:381-434 | Frame i of a run is sealed under number start + i |
| `SecureChannel.AnyDelivery` | src/security/session.rs:381-544 | Any plaintexts, delivered with any loss, duplication and reordering: each delivery yields exactly its own plaintext if its number exceeds all earlier delivered positive ones, and is refused otherwise |
| `SecureChannel.InOrderDelivery` | src/security/session.rs:381-544 | With loss only, every delivered frame decrypts to its own plaintext |
| `SecureChannel.AcceptedClimb` | src/security/session.rs:443-535 | Over arbitrary octet strings the accepted numbers never decrease, no positive number is accepted twice, and rejected frames leave the session unchanged |
| `SecureChannel.SecondDelivery` | src/security/session.rs:480-492 | An accepted frame is accepted a second time exactly when its number is 0, the case the code exempts |
| `Handshake.SameData` | src/security/session.rs:169-178 | Both parties authenticate the same data, whichever public key they call their own |
| `Handshake.SharedSecretsAgree` | src/security/session.rs:154-373 | Parties with equal user, password and (if checked) device code both end authenticated with one id and one key, the first half of the hash of their shared secret, given Diffie-Hellman commutativity (section 6.1 of RFC 7748) |
| `Handshake.HandshakeOutcome` | src/security/session.rs:154-373 | With any configured secrets: the client accepts the response exactly when it checks no device code or both codes give one MAC, and both parties authenticate exactly when moreover the users agree and both passwords give one MAC |
| `Handshake.SecureConversation` | src/security/session.rs:154-544 | Handshake followed by lossy traffic in both directions: everything that arrives decrypts to what was sent |
| `GroupSecurity.GroupRoundTrip` | src/security/group.rs:65-192 | Encryption succeeds exactly when the group has a key of 16 octets, and then decryption returns the payload, for every payload and sequence number |
| `GroupSecurity.AcceptsExactlyEncrypted` | src/security/group.rs:65-192 | Over arbitrary octets, a payload is accepted exactly when encrypting it under the number in front gives back the received string |
| `GroupSecurity.TruncatedMac` | src/security/group.rs:150-172 | Cutting the sealed MAC and zero-extending it keeps the keystream aligned: the kept octets decrypt |
| `GroupSecurity.EncryptGroupPayload` | src/security/group.rs:65-103 | The octets built step by step, or the error, are those of the value-level encryption |
| `GroupSecurity.DecryptGroupPayload` | src/security/group.rs:120-192 | The payload or the error (too short, missing key, MAC mismatch) is that of the value-level decryption |
| `GroupSecurity.BuildBlock0` | src/security/group.rs:39-47 | Filling the array gives the flags, the sequence number, zeros and the payload length at their offsets |
| `GroupSecurity.BuildCounter0` | src/security/group.rs:30-35 | Filling the array gives the flags, the sequence number and zeros at their offsets |
| `GroupSecurity.BlockOctets` | src/security/group.rs:30-47 | Both blocks octet by octet: flags, number, zeros, and in block 0 the payload length |
| `GroupSecurity.BlocksDiffer` | src/security/group.rs:30-47 | Numbers of 48 bits give the same counter block or block 0 only if they are the same |
| `GroupSecurity.GroupTextDetermines` | src/security/group.rs:65-103 | What a group MAC chains determines number and payload |
| `GroupSecurity.SecuredOctets` | src/security/group.rs:65-103 | Every octet of a secured payload: the number, the payload masked from the second counter block, the first four octets of the masked MAC over number and payload |
| `GroupSecurity.GroupRefusals` | src/security/group.rs:65-192 | Which error comes back in both directions, exactly, from length and key; what passes fails only for its MAC |
| `GroupSecurity.AcceptedExactly` | src/security/keys.rs:170-182 | In every run with any senders interleaved, an attempt is accepted if and only if its number exceeds the one stored for its sender and those of all earlier attempts of that sender; a sender without either gets in with any number |
| `GroupSecurity.StoredIsHighest` | src/security/keys.rs:170-182 | After every run the stored number of a sender is the highest it had or tried |
| `GroupSecurity.KeyRing.ValidateSequence` | src/security/keys.rs:170-182 | Accepts exactly a number above the stored one, stores it, and leaves every other sender alone |
| `GroupSecurity.KeyRing.AddGroupKey` | src/security/keys.rs:129-131 | Adds or replaces one key |
| `GroupSecurity.SendersNeverRepeat` | src/security/keys.rs:170-182 | In any run the accepted numbers of one sender strictly increase |
| `GroupSecurity.SendersAreIndependent` | src/security/keys.rs:170-182 | What one sender gets accepted does not depend on the attempts of others |
| `XmlText.EscapeXml` | src/config/mod.rs:32-49 | The loop over the characters produces the character-wise escaped text |
| `XmlText.UnescapeInverts` | src/config/mod.rs:32-64 | For every string, the five global replacements in their order undo the escaping, also when the text already contains entities |
| `XmlText.EscapedIsInert` | src/config/mod.rs:32-49 | Escaped text contains no angle bracket and no quote of either kind |
| `XmlText.ReplaceStage` | src/config/mod.rs:53-64 | Each of the five replacements undoes the escaping of one character and of no other |
| `XmlScan.ExtractFromTag` | src/config/keyring.rs:213-222 | What the substring search returns on any tag: the value of the first attribute whose name ends in the name, unless an earlier value ends in the name and `=`; then the text between the next two quotes |
| `XmlScan.ScanElements` | src/config/keyring.rs:225-256 | The `pos` loop of the three element readers, which terminates, collects what the recursive scan collects |
| `XmlScan.ScanElement` | src/config/keyring.rs:362-393 | A self-closing element at the front is cut out whole and the scan goes on behind it |
| `XmlScan.ScanLongElement` | src/config/keyring.rs:362-393 | An element that ends with its closing tag is cut out whole exactly when no ` />` follows it anywhere in the text; otherwise it is taken to reach to that |
| `XmlScan.ScanClosed` | src/config/keyring.rs:362-393 | Text that ends with a closed element is scanned independently of whatever follows it |
| `Addresses.GroupTextRoundTrip` | src/protocol/address.rs:182-343 | Every group address is recovered from its three-level notation |
| `Addresses.IndividualTextRoundTrip` | src/protocol/address.rs:416-555 | Every individual address is recovered from its dotted notation |
| `Numerals.ParseU8Exactly` | src/config/keyring.rs:273-276 | Every text: it is read as an octet if and only if it is an optional plus sign, leading zeros and the decimal notation |
| `Numerals.ParseGroupExactly` | src/protocol/address.rs:301-343 | Every text: it is read as a group address if and only if it is numerals for main, middle and sub group with slashes between |
| `Numerals.ParseIndividualExactly` | src/protocol/address.rs:514-556 | Every text: it is read as an individual address if and only if it is numerals for area, line and device with dots between |
| `Numerals.KeyFromHexExactly` | src/security/keys.rs:32-39 | Every text: it is read as a key if and only if, without its spaces and colons and in lower case, it is the hexadecimal notation of the key |
| `Numerals.HexRefused` | src/security/keys.rs:32-39 | Refused are exactly an odd number of digits and anything that is no digit |
| `KeyringElements.GroupElementExactly` | src/config/keyring.rs:396-418 | Any group element, with any attributes in any order, yields an entry if and only if its address and its key are readable |
| `KeyringElements.DeviceElementExactly` | src/config/keyring.rs:333-359 | Any device element yields a device if and only if its address is readable; keys that are missing or unreadable are left out |
| `KeyringElements.InterfaceElementExactly` | src/config/keyring.rs:259-296 | Any interface element yields an interface if and only if its address is readable; what else is missing or unreadable gets its default |
| `Text.KeyHexRoundTrip` | src/security/keys.rs:32-39 | Every key is recovered from its hexadecimal notation |
| `KeyringTrip.GroupElementRoundTrip` | src/config/keyring.rs:396-418 | Every group entry, with any key and any description, is read back from its element |
| `KeyringTrip.ScanSection` | src/config/keyring.rs:511-521 | Scanning a written section yields its entries in order, then what the rest yields |
| `KeyringFile.GroupsOfFile` | src/config/keyring.rs:362-418 | For every keyring the group entries of its file come back complete and in order, preceded only by what the interface section contributes |
| `XmlElements.ScanFindsNothing` | src/config/keyring.rs:362-393 | The element loop finds nothing in closed text exactly when no tag in it begins an element that can be read, where a tag begins one when every tag before it has its ` />` before it too |
| `KeyringFile.GroupsRoundTripExactly` | src/config/keyring.rs:422-526 | The groups of a file come back exactly when no `<GroupAddress` in an interface type begins an element, up to the next ` />` there or at the end of the line, whose address and key can be read |
| `KeyringFile.GroupsRoundTrip` | src/config/keyring.rs:422-526 | So they do whenever every type lacks the group tag or contains no quote |
| `KeyringFile.TypeActsAsElement` | src/config/keyring.rs:450-450 | The interface type is written unescaped: a type that is the text of a group element adds that entry, for every entry |
| `KeyringEntries.DeviceReadBack` | src/config/keyring.rs:333-359 | What is read from any written device: a key is lost exactly when the serial number ends in its name and `=` |
| `KeyringEntries.DeviceRoundTrip` | src/config/keyring.rs:333-359 | A device makes the round trip exactly when its serial number shadows none of its keys |
| `XmlText.UnescapeFixed` | src/config/mod.rs:53-64 | Unescaping leaves a text alone exactly when none of the five entities occurs in it |
| `KeyringInterfaces.InterfaceSearched` | src/config/keyring.rs:259-296 | What is read from every interface, whatever its type, field by field: the type up to its first quote, and every other attribute where the search across the quotes of the type ends |
| `KeyringInterfaces.InterfaceReadBack` | src/config/keyring.rs:259-296 | For a type without quotes that is each field itself, or the default that replaces a shadowed attribute |
| `KeyringInterfaces.FrontIsRead` | src/config/keyring.rs:259-270 | Whatever the type: the address is read back, and the type is the text up to the next quote |
| `KeyringInterfaces.InterfaceRoundTrip` | src/config/keyring.rs:259-296 | Every interface makes the round trip exactly when its type holds no quote and none of the five entities and every attribute its texts shadow has its default |
| `KeyringTypes.QuietType` | src/config/keyring.rs:299-393 | Whatever tags a type without quotes contains, the group and device readers find nothing in its line |
| `KeyringTypes.HarmlessType` | src/config/keyring.rs:362-393 | Neither does the group reader in a type without its tag |
| `KeyringTypes.MangledType` | src/config/keyring.rs:225-256 | An interface whose type contains a quote or ` />` is read with another type, whatever follows |
| `KeyringEntries.MetadataReadBack` | src/config/keyring.rs:151-169 | What is read from written metadata, whatever follows it in the file |
| `KeyringEntries.NoDocumentTag` | src/config/keyring.rs:151-169 | Without a document tag, or with one that does not end, there are no metadata |
| `KeyringEntries.MetadataRoundTrip` | src/config/keyring.rs:151-169 | Metadata make the round trip exactly when no text shadows a later attribute in a way that changes it |
| `KeyringFile.InterfacesDiffer` | src/config/keyring.rs:225-256 | A section with such a type is never read back as it was written |
| `KeyringFile.DevicesOfFile` | src/config/keyring.rs:299-359 | For every keyring the devices of its file come back behind what the interface section contributes, without the keys their serial numbers shadow |
| `KeyringFile.KeyringAsSearched` | src/config/keyring.rs:133-180 | What the reader makes of all four parts of a written file, with quotes in its types or without, as long as no type contains ` />` |
| `KeyringFile.KeyringReadBack` | src/config/keyring.rs:133-180 | Without quotes too, every part is read back on its own: nothing in a type counts as a device or a group |
| `KeyringFile.KeyringRoundTrip` | src/config/keyring.rs:133-526 | Every keyring is read back as it was written if and only if no interface type contains a quote or ` />` and nothing in it is shadowed |
| `KeyringParser.Serialize` | src/config/keyring.rs:422-526 | Appending line by line in three loops produces the file text of the model |
| `KeyringParser.Parse` | src/config/keyring.rs:133-180 | The four readers run on one text give the model's result |
| `CemiCodec.Parse` | src/protocol/cemi.rs:54-347 | The offset-driven parser, which never leaves its input, gives the frame or the error of the value-level parser |
| `CemiCodec.ParseInfos` | src/protocol/cemi.rs:115-171 | The loop over the additional-info fields collects exactly the fields, or stops with the same error |
| `CemiCodec.ParseAt` | src/protocol/cemi.rs:173-269 | Control, extension and addresses from the offset on, for standard and extended frames |
| `CemiCodec.ParsePayload` | src/protocol/cemi.rs:271-347 | Length octet, TPCI and APCI data from the offset on, with the truncation errors |
| `CemiCodec.Serialize` | src/protocol/cemi.rs:351-424 | Appending field by field produces the octets of the frame |
| `CemiTrip.FrameRoundTrip` | src/protocol/cemi.rs:54-424 | A frame, standard or extended, with any additional info, is read back from its octets with anything behind them, using exactly those octets, if and only if it is well-formed |
| `CemiTrip.ParsedIsWellFormed` | src/protocol/cemi.rs:54-347 | Every accepted octet string yields a well-formed frame |
| `CemiTrip.FrameBack` | src/protocol/cemi.rs:54-424 | Serializing a parsed frame gives back the octets it was read from, up to the reserved control bits |
| `CemiTrip.ParseSerializeParse` | src/protocol/cemi.rs:54-424 | Parsing, serializing and parsing again changes nothing |
| `CemiTrip.AcceptedExactly` | src/protocol/cemi.rs:54-347 | Every octet string: it is read as a certain frame if and only if that is well-formed and the string, with its reserved bits normalized, begins with the octets of the frame |
| `CemiTrip.ReservedBitsIgnored` | src/protocol/cemi.rs:645-766 | The reserved control bits never change the outcome, be it a frame or an error |
| `CemiTrip.FrontRefusals` | src/protocol/cemi.rs:54-171 | Which refusal an octet string draws up to its control octets, exactly: length, message code, truncated info, info not filled by whole fields, too few octets behind it |
| `CemiTrip.BodyRefusals` | src/protocol/cemi.rs:173-347 | And from there on: a group address above 15 bits, a missing length octet, fewer octets than announced |
| `CemiTrip.InfosRoundTrip` | src/protocol/cemi.rs:115-171 | Any list of additional-info fields is read back, at any offset of a larger buffer |
| `CemiTrip.InfosInverse` | src/protocol/cemi.rs:115-171 | The fields read from a region are exactly what serializes to that region |
| `CemiTrip.ControlRoundTrip` | src/protocol/cemi.rs:645-766 | Every control field survives its two flag octets, the hop count with its low three bits |
| `CemiTrip.ControlBack` | src/protocol/cemi.rs:645-766 | Two octets survive the control field except for the reserved bits |
| `CemiTrip.ExtendedRoundTrip` | src/protocol/cemi.rs:783-812 | Every extended control field survives its octet, hop count and format with the bits the octet has |
| `CemiTrip.CodeRoundTrip` | src/protocol/cemi.rs:512-547 | Every message code survives its octet |
| `CemiTrip.CodeInverse` | src/protocol/cemi.rs:512-547 | An accepted message-code octet is the octet of the code it gives |
| `KnxIp.UnsliceableExactly` | src/protocol/knxip.rs:630-645 | The source slices out of range exactly when a valid header announces fewer than six octets |
| `KnxIp.UnsliceableWitness` | src/protocol/knxip.rs:630-645 | A search request that announces no octets does so |
| `KnxIp.PacketRoundTrip` | src/protocol/knxip.rs:612-663 | A packet that fits its 16-bit length field is read back with anything behind it, and its length field is its length |
| `KnxIp.PacketExactly` | src/protocol/knxip.rs:612-663 | Every octet string: it is read as a packet if and only if that has a supported header, announces its own length, and is what the string begins with |
| `KnxIp.PacketRefusals` | src/protocol/knxip.rs:84-175 | Which refusal an octet string draws, exactly, by its octets |
| `KnxIp.HeaderRoundTrip` | src/protocol/knxip.rs:84-175 | Every header survives its six octets |
| `KnxIp.ServiceRoundTrip` | src/protocol/knxip.rs:14-70 | Every service type survives its code |
| `KnxIp.TunnelledRoundTrip` | src/protocol/knxip.rs:1036-1107 | Every tunnelling request survives its octets |
| `KnxIp.TunnelledExactly` | src/protocol/knxip.rs:1036-1107 | Every octet string: it is read as a request if and only if it is the octets of that, with anything in the reserved one |
| `Apci.ServiceRoundTrip` | src/protocol/apci.rs:27-110 | A group service always stays the same service, and keeps its payload exactly when that is one octet of six bits or at least two octets |
| `FrameTransport.TcpReader.TryExtractFrame` | src/transport/frame_transport.rs:51-67 | Splits off one whole frame and keeps the rest, or leaves the buffer alone |
| `FrameTransport.TcpReader.RecvFrame` | src/transport/frame_transport.rs:230-249 | The read loop ends with the outcome and the remaining buffer of the value-level receive |
| `FrameTransport.ReceiveSeesStream` | src/transport/frame_transport.rs:230-249 | A receive depends only on buffered octets and the reads to come joined together, not on where the reads are cut |
| `FrameTransport.ReceiveExactly` | src/transport/frame_transport.rs:51-249 | What a receive returns, by the stream alone: the frame it begins with, an error when it announces fewer octets than a header has, the end when it announces more than will come |
| `FrameTransport.ChunkingDoesNotMatter` | src/transport/frame_transport.rs:230-249 | Any number of receives gives what cutting the joined stream gives, for every chunking |
| `FrameTransport.ReceivedIsFramed` | src/transport/frame_transport.rs:51-67 | Every received frame has the length it announces, at least six |
| `FrameTransport.NothingIsLost` | src/transport/frame_transport.rs:51-249 | In every run, received frames plus buffered and unread octets equal the stream |
| `FrameTransport.FramesArrive` | src/transport/frame_transport.rs:51-249 | Any frames sent back to back and read in chunks of any sizes are received exactly, in order; then the stream ends |
| `Telegrams.WriteArrives` | src/application/knx.rs:2700-2778 | A telegram with a payload, sent down all four layers and read up again over a tunnel or routing, keeps source, destination and payload as a group write exactly when the payload is one octet below 64 or 2 to 254 octets |
| `Telegrams.ReadArrives` | src/application/knx.rs:2700-2778 | A telegram without payload arrives as a group read whose payload is the one zero APCI octet |
| `Telegrams.GroupServiceArrives` | src/application/knx.rs:2700-2740 | A read, response or write in any well-formed frame arrives as a telegram of that kind with the addresses and the priority of the frame, and keeps its payload exactly when that is encodable |
| `Telegrams.EveryFrameArrives` | src/application/knx.rs:2700-2740 | Any well-formed frame arrives as a telegram with its addresses and priority, a read, response or write as its service bits say; of any other service, or without data, as a write of its raw APCI octets |
| `Telegrams.OtherServicesCarryNone` | src/application/knx.rs:2287-2341 | Frames of every other KNX/IP service carry no telegram |
| `Telegrams.CemiOctets` | src/application/knx.rs:2742-2778 | The octets that leave for a telegram: message code, control octets, addresses, length, APCI |
| `Telegrams.LinkOctets` | src/application/knx.rs:2742-2778 | And what stands in front of them on a tunnel and on routing |
| `Telegrams.LinkRoundTrip` | src/application/knx.rs:2762-2778 | A cEMI frame that fits the 16-bit length field comes through tunnelling or routing and KNX/IP unchanged |
| `Telegrams.ReceivedPayloadBound` | src/application/knx.rs:2700-2740 | No octet string yields a telegram with more than 255 payload octets |
| `Telegrams.StreamIsSliceable` | src/transport/frame_transport.rs:51-67 | The input the packet parser cannot slice never comes out of a byte stream |
| `Telegrams.TelegramsOverStream` | src/application/knx.rs:2700-2778 | Any run of reads and of writes with carriable payloads, written to a byte stream and read in chunks of any sizes, arrives complete and in order |
| `AddressProbe.BuildRequest` | src/transport/address_probe.rs:171-188 | Appending octet by octet gives the octets of the hand-assembled frame |
| `AddressProbe.AgainstSerializer` | src/transport/address_probe.rs:171-188 | The hand-assembled frame is what the general serializer writes, plus the TPCI octet the serializer drops when there is no APCI data |
| `AddressProbe.FetchedOctetFollowsFrame` | src/transport/address_probe.rs:220-233 | For every accepted frame without data the index arithmetic equals the offset where the parser stopped |
| `AddressProbe.EmptyFrameKeepsTpci` | src/transport/address_probe.rs:220-233 | A frame without APCI data, with any additional info and extension, loses its TPCI octet in the parser and keeps it in the probe |
| `AddressProbe.RequestRoundTrip` | src/transport/address_probe.rs:171-233 | TPCI octet and APCI data of any request are read back exactly when the data have at most 255 octets |
| `AddressProbe.BareControlSignals` | src/transport/address_probe.rs:241-253 | A bare transport control frame marks the address occupied exactly when its octet has the control bit, no number and code 1, a disconnect |
| `AddressProbe.DataSignals` | src/transport/address_probe.rs:241-253 | A frame with data marks the address occupied exactly when it carries the descriptor response service or the disconnect octet |
| `AddressProbe.ReceiveUntilSignal` | src/transport/address_probe.rs:123-156 | The receive loop reports an occupied address exactly when a frame signals it before any transport failure and any datagram the source slices out of range, the failure or that panic exactly when it comes first, and otherwise waits out the time |
| `AddressProbe.AutoSelect` | src/transport/address_probe.rs:285-330 | For any area and line, an address is chosen if and only if it is the first candidate among devices 240 to 254 neither taken nor found occupied; exhaustion and transport errors exactly when they happen |
| `AddressProbe.Candidate` | src/transport/address_probe.rs:260-263 | With area and line in range the packed address is the one the checked constructor gives |
| `AddressProbe.CandidateBits` | src/transport/address_probe.rs:260-263 | For any area and line, bit by bit: what of the line exceeds four bits falls on the area |
| `TelegramQueues.TelegramQueue.constructor` | src/transport/queue.rs:143-159 | An empty open queue |
| `TelegramQueues.TelegramQueue.EnqueueOutgoing` | src/transport/queue.rs:167-223 | Refuses when closed, and when full, which counts as a drop; otherwise the telegram is last in acceptance order and all statistics follow |
| `TelegramQueues.TelegramQueue.EnqueueIncoming` | src/transport/queue.rs:231-273 | Refuses when closed, and when full, which counts as a drop; otherwise the telegram is last in arrival order |
| `TelegramQueues.TelegramQueue.DequeueOutgoing` | src/transport/queue.rs:278-305 | Popping the heap takes the first accepted of the most urgent telegrams; otherwise the end or a wait |
| `TelegramQueues.TelegramQueue.DequeueIncoming` | src/transport/queue.rs:310-333 | Takes the telegram that arrived first; otherwise the end or a wait |
| `TelegramQueues.TelegramQueue.Close` | src/transport/queue.rs:354-359 | Closes and changes nothing else |
| `TelegramQueues.TelegramQueue.Clear` | src/transport/queue.rs:368-373 | Empties both queues and keeps the counters |
| `EntryHeap.Push` | src/transport/queue.rs:199-204 | Appending and sifting up keeps the heap order and adds exactly the entry |
| `EntryHeap.Pop` | src/transport/queue.rs:278-281 | Removing the root and sifting down keeps the heap order and takes out exactly an entry that no other precedes |
| `EntryHeap.SiftUp` | src/transport/queue.rs:73-82 | From a heap with one entry too low, the loop makes a heap of the same entries |
| `EntryHeap.SiftDown` | src/transport/queue.rs:73-82 | From a heap with its root too high, the loop makes a heap of the same entries |
| `EntryHeap.RootFirst` | src/transport/queue.rs:73-82 | Nothing in a heap leaves before its root |
| `TelegramQueues.TopIsNext` | src/transport/queue.rs:73-82 | The entry no other precedes is the first accepted of the most urgent ones, and no other entry is |
| `TelegramQueues.PopNext` | src/transport/queue.rs:278-281 | Popping the heap of the pending entries takes out exactly that entry |
| `QueueSteps.NextIndex` | src/protocol/telegram.rs:229-249 | No entry is more urgent, and no earlier one is equally urgent |
| `QueueSteps.RunGood` | src/transport/queue.rs:167-373 | In every reachable state: sizes within the limits, current size exact, peak at most twice the limit, sequence numbers ascending and below the counter |
| `QueueSteps.StatsAreHistory` | src/transport/queue.rs:167-373 | In every run the counters equal the numbers of accepted, delivered and dropped telegrams, and the peak is the largest size ever reached |
| `QueueOrder.RunConserves` | src/transport/queue.rs:167-373 | In every run, what was held and taken in equals what was handed out, is still held, or was cleared, telegram for telegram |
| `QueueOrder.CountersBalance` | src/transport/queue.rs:167-373 | In every run of a new queue, enqueued equals dequeued plus current plus cleared |
| `QueueOrder.FirstInFirstOut` | src/transport/queue.rs:167-373 | In every run incoming telegrams leave, handed out or cleared, in order of arrival, and outgoing ones of equal priority in order of acceptance, whatever the interleaving |
| `QueueOrder.GotIsLeftWithGaps` | src/transport/queue.rs:278-373 | What callers get is an order-preserving subsequence of what leaves, with the cleared telegrams as the gaps, and all of it when nothing is cleared |
| `QueueDrain.DrainSorts` | src/transport/queue.rs:278-305 | Repeated dequeuing is a stable sort by priority |
| `QueueDrain.DrainIsFifo` | src/transport/queue.rs:199-204 | Draining keeps the order of acceptance if and only if no entry is more urgent than an earlier one |
| `QueueDrain.FifoIffRanked` | src/transport/queue.rs:199-305 | The replies to a run of dequeues are the backlog in order of acceptance under exactly that condition, whatever the configuration |
| `QueueDrain.OvertakenByUrgency` | src/transport/queue.rs:199-204 | A system telegram overtakes a low one accepted before it |
| `QueueDrain.BacklogIsSorted` | src/transport/queue.rs:278-305 | Dequeuing a whole backlog hands it out as that stable sort, and the next dequeue reports the end if closed and waits if open |
| `QueueOrder.ClosedStaysClosed` | src/transport/queue.rs:354-359 | In every run of a closed queue nothing is accepted and nobody waits |
| `QueueOrder.ReplyIsExact` | src/transport/queue.rs:167-333 | In every run an enqueue is refused exactly after a close or when its side is full, and a dequeue gets a telegram exactly when its side holds one, namely the first accepted of the most urgent or the first that arrived, and the end exactly when its side is empty after a close |
| `QueueOrder.EndIsFinal` | src/transport/queue.rs:298-300 | After the end was reported on either side no telegram is ever handed out on that side again |
| `RateLimit.RateLimiter.constructor` | src/transport/rate_limit.rs:36-43 | Starts with the burst |
| `RateLimit.RateLimiter.RefillAt` | src/transport/rate_limit.rs:46-55 | Adds what accrued and stops at the cap |
| `RateLimit.RateLimiter.TryAcquireAt` | src/transport/rate_limit.rs:58-77 | Takes a token exactly when a whole one is there |
| `RateLimit.RateLimiter.Acquire` | src/transport/rate_limit.rs:80-101 | Ends after at most two sleeps, however late they end, holding the token that one `try_acquire` at that time would take |
| `RateLimit.GrantedIffWithinEveryLimit` | src/transport/rate_limit.rs:46-77 | In every run a call is granted exactly when it would break neither the limit since creation nor the limit of any window that ends at it |
| `RateLimit.LevelIsLeastAllowance` | src/transport/rate_limit.rs:46-77 | The token count is the least of what all those limits leave |
| `RateLimit.WindowBound` | src/transport/rate_limit.rs:46-77 | In any window at most the cap (rate + burst, added in 32 bits) plus the rate times its length are granted |
| `RateLimit.WindowBoundInNumbers` | src/transport/rate_limit.rs:46-77 | In numbers, when the sum fits 32 bits: a window grants at most rate plus burst plus the rate for every second of it |
| `RateLimit.BurstAtOnce` | src/transport/rate_limit.rs:46-77 | Call k of a burst at one instant is granted exactly when what the bucket held and gained, up to the cap, has a token for it and all before it |
| `RateLimit.BurstAfterIdle` | src/transport/rate_limit.rs:46-77 | One idle second after creation, call k of a burst is granted if and only if k is below rate plus burst (in 32 bits) |
| `RateLimit.RefillEarlier` | src/transport/rate_limit.rs:46-55 | At an earlier clock reading nothing accrues |
| `RateLimit.TotalBound` | src/transport/rate_limit.rs:36-77 | Since creation at most the burst plus the rate times the age are granted |
| `RateLimit.RefillTwice` | src/transport/rate_limit.rs:46-55 | Refilling twice is refilling once at the later time |
| `RateLimit.SleepHelps` | src/transport/rate_limit.rs:92-100 | After the floored wait less than a millisecond of tokens is missing, and after the next one none |
| `RateLimit.NoRateNoGrant` | src/transport/rate_limit.rs:80-101 | With rate zero and less than one token, or a cap below one, no call is ever granted |
| `Heartbeat.HeartbeatMonitor.Success` | src/transport/heartbeat.rs:98-107 | Resets the counter and keeps the lost flag |
| `Heartbeat.HeartbeatMonitor.Failure` | src/transport/heartbeat.rs:110-132 | Counts up in eight bits and sets the flag when the count reaches the limit |
| `Heartbeat.LostIffFailuresInARow` | src/transport/heartbeat.rs:98-132 | For every trace: lost exactly when the trace contains the limit (at least one) of failures in a row, also after the counter has wrapped |
| `Heartbeat.ReportIsWrapped` | src/transport/heartbeat.rs:110-132 | The returned flag tells whether the streak modulo 256 reaches the limit |
| `Heartbeat.ReportIsFlag` | src/transport/heartbeat.rs:109-132 | A failure returns whether the tunnel is lost exactly when it was not lost before or the wrapped streak reaches the limit again |
| `Heartbeat.ReportAfterRecovery` | src/transport/heartbeat.rs:109-132 | Two failures, a success and a failure under limit two: lost, and reported as not lost |
| `Heartbeat.ReportAfterWrap` | src/transport/heartbeat.rs:109-132 | The 256th failure in a row: lost, and reported as not lost, under every limit but zero |
| `Backoff.Reconnect` | src/application/knx.rs:916-1019 | The loop sleeps one delay of the sequence after each failed attempt and ends as the attempts do |
| `Backoff.TaskEnds` | src/application/knx.rs:916-1019 | At most `max_attempts` attempts, and exactly when the task ends connected, stopped or given up |
| `Backoff.WithinMaximum` | src/application/knx.rs:1013-1018 | No delay exceeds the maximum if and only if the initial one does not: the first is not capped |
| `Backoff.NeverShrinks` | src/application/knx.rs:1013-1018 | With a multiplier of at least one, delays never shrink if and only if the initial one is within the maximum |
| `Backoff.BelowExponential` | src/application/knx.rs:1013-1018 | A delay never exceeds the exponential, in spite of the truncation at every step |
| `Backoff.WholeMultiplier` | src/application/knx.rs:1013-1018 | For whole multipliers every later delay is exactly the capped exponential |
| `Backoff.SameDelays` | src/transport/backoff.rs:25-45 | For whole multipliers and an initial delay within the maximum, the reconnection loop and the jittered backoff follow the same delays before jitter |
| `Backoff.JitterWithinMaximum` | src/transport/backoff.rs:25-45 | Every jitter keeps a delay within the maximum if and only if five times its base is below four times the maximum plus one (or the maximum is the largest number there is) |
| `Backoff.JitterExceedsMaximum` | src/transport/backoff.rs:25-45 | At the cap the largest jitter exceeds the maximum |
| `Backoff.GrowsDespiteJitter` | src/transport/backoff.rs:25-45 | While uncapped, delays that at least double grow whatever the jitters are |
| `Backoff.JitteredBackoff.Next` | src/transport/backoff.rs:25-45 | Counts the attempt and returns its capped, jittered, truncated delay |
| `Backoff.JitteredBackoff.Reset` | src/transport/backoff.rs:48-57 | Starts over |
| `TunnelLink.Channel.ValidateSequence` | src/transport/tunnel.rs:829-840 | Valid, duplicate or invalid, and the expected counter moves only when valid |
| `TunnelLink.Channel.HandleRequest` | src/application/knx.rs:2344-2476 | A valid request is acknowledged and passed on, and queued if the cEMI parser and the queue take it; a duplicate is only acknowledged, an invalid one refused |
| `TunnelLink.Channel.HandleAck` | src/transport/server.rs:767-781 | Any acknowledgement ends a wait, with success or failure by its status; without a wait nothing happens |
| `TunnelLink.Channel.SendToSession` | src/transport/server.rs:849-896 | Two attempts with one counter, each waiting for whatever arrives, equal the corresponding run of events |
| `TunnelLink.InOrderAtMostOnce` | src/transport/server.rs:849-896 | Under any loss, delay, repetition and reordering of requests and acknowledgements, short of 256 telegrams: what the client accepts is the beginning of what the server set out to send, in order and without repetition |
| `TunnelLink.AcceptedEvery256` | src/transport/tunnel.rs:829-840 | A request is accepted exactly when it is a multiple of 256 telegrams away from the one expected |
| `TunnelSessions.SuccessMeansDelivery` | src/transport/server.rs:767-896 | In every such session the server reports only accepted telegrams, at every moment, if and only if no send succeeds before some copy of its own request has arrived |
| `TunnelSessions.ExactlyOnce` | src/transport/server.rs:849-896 | When the acknowledgements that end waits belong to the telegram waited for: no send is rejected, and the client accepts exactly the acknowledged telegrams, each once and in order, and then at most the one being sent |
| `TunnelSessions.TimelyIsMatched` | src/transport/server.rs:849-896 | Acknowledgements do belong to the telegram waited for when requests arrive before the next telegram is sent, and the acknowledgement that ends a wait was sent since its telegram was first sent |
| `TunnelSessions.FreshSession` | src/transport/server.rs:849-896 | So a new session in which nothing outlives its exchange, with any losses, retries and repetitions, delivers exactly once |
| `TunnelSessions.RejectedExactly` | src/transport/server.rs:767-781 | In every session, whatever the network does, no send is rejected if and only if no wait ends with the answer to a request that was neither the expected one nor the one before it, modulo 256 |
| `TunnelSessions.PositiveAnswer` | src/transport/tunnel.rs:829-840 | While the server is not ahead, the client answers a request positively exactly when it is at most one telegram behind |
| `TunnelSessions.RejectedByLateCopies` | src/application/knx.rs:2344-2476 | In every session in which successes mean delivery, no send is rejected if and only if no wait ends with the answer to a copy two or more telegrams late |
| `TunnelSessions.LateAckHidesLoss` | src/transport/server.rs:767-781 | A session, event by event, in which a late acknowledgement makes a lost telegram count as sent and the next one be refused |
| `TunnelSessions.LateCopyFailsSend` | src/transport/server.rs:767-781 | A session in which the refusal of an old copy fails the send of a telegram that arrived |
| `TunnelSessions.QueuedIsAccepted` | src/application/knx.rs:2344-2476 | The client queues exactly what it accepts if and only if every request judged valid finds room |
| `TunnelSessions.TwoAttempts` | src/transport/server.rs:849-896 | In every session, whatever the network does, telegrams leave in order, none more than twice, and a send times out only after its second copy |
| `TunnelSessions.FailedSendEnds` | src/transport/server.rs:849-896 | After a send has failed nothing more is sent or reported |
| `TunnelSessions.NoRoomLosesTelegram` | src/application/knx.rs:2344-2476 | Without room a telegram is acknowledged and lost |

## Left out

- Sockets, tasks, timeouts, logging and wake-ups: input and output; a dequeue that finds nothing is one step that asks to
  wait, and nothing is claimed about when a waiting caller runs again.
- Internals of AES, SHA-256, PBKDF2 and X25519, random keys, and any claim of secrecy or unforgeability.
- Concurrent calls of `decrypt_frame` on one session: the load and the store of its counter are one step here.
- 64-bit wrap-around of queue counters, and 32-bit wrap-around of the backoff's attempt counter.
- Rounding of `f64`: token counts, delays and multipliers are real numbers; casts to integers truncate and saturate.
- UTF-8: keyring text is a sequence of characters, and invalid encodings are not modelled.
- The keyring signature, which is neither written nor read, and the binary keyring format, which the source rejects.
- KeyringInterfaces.InterfaceReadBack: for types without quotes; InterfaceSearched covers every type.
- KeyringFile.KeyringReadBack: for types without quotes and ` />`; KeyringAsSearched allows quotes, and of a type with ` />`
  MangledType states only that another type is read.
- KeyringFile.KeyringAsSearched: excludes types with ` />`, which end their element early.
- The standard library's heap: its sifting is written out here in its textbook form.
- Telegram timestamps, waiting times and their moving average.
- The fixed read size of 1024 octets: reads of every non-empty size are covered.
- Debug-build overflow checks: arithmetic wraps as in a release build.
- Fixed-size KNX/IP bodies, status codes, discovery, device management, data point types, groups and callbacks.
- TunnelLink.InOrderAtMostOnce: excludes requests that arrive 256 or more telegrams late, because the counter cannot tell them
  from new ones; AcceptedEvery256 says what happens to them.
- Errors while sending a frame, after which the tunnel server gives the session up.
