# UDP chat tracker and peer — a Dafny model

The system is a small UDP chat in two programs.

- The **tracker** (`Tracker.java`) keeps a registry of `(address, port, username)` records. A `REGISTER:<name>` datagram appends a record for the sender and answers with the whole peer list. An `UNREGISTER:<name>` datagram removes the sender's first record.
- The **peer** (`Peer.java`) registers with the tracker and decodes the peer list it gets back into its directory. When the user types a message, it sends one timestamped chat line to every directory entry whose address or port differs from its socket's local ones.

The model lifts the pure logic out of the socket code. Addresses are opaque strings and sends are returned as sequences of datagrams. The modules are:

| module | file | contents |
|---|---|---|
| `Wrappers` | `wrappers.dfy` | `Option` and `Result` |
| `JavaText` | `java_text.dfy` | the Java library calls the programs rely on: `String.trim`, `String.split` with a one-character separator (including its dropping of trailing empty strings), `Integer.parseInt` and `Integer.toString` on the `int` range |
| `Net` | `net.dfy` | endpoints and datagrams |
| `Tracker` | `tracker.dfy` | the registry, `removePeer`, the `sendPeerList` encoder, the command dispatch of `start`, and its receive loop |
| `Peer` | `peer.dfy` | the REGISTER/UNREGISTER payloads, peer-list decoding, the chat line and the broadcast fan-out |
| `Protocol` | `protocol.dfy` | properties that span both programs: the encoder/decoder round trip, what the tracker does with each payload a peer sends, the registration round trip, and the worked scenarios |

A dispatch can throw an unchecked exception. This happens when the trimmed payload splits into no fields (`parts[0]`) or is a `REGISTER` with no second field (`parts[1]`). Such an exception escapes `start`'s `catch (IOException)` and ends the tracker. The model returns `Failure(Crash)` from `Tracker.Dispatch`, and `Tracker.Run` stops at the first such datagram.

The peer has the same weakness: a reply it cannot decode throws an unchecked exception that escapes `startChat` and `main` and ends the peer before it starts listening. The model returns `Failure(DecodeError)` from `Peer.HandleRegisterReply`.

In a few places the code does not do what the protocol is evidently meant to do. The model follows the code:

- **REGISTER does not deduplicate.** One would expect a repeated REGISTER to act as a refresh that leaves one record per endpoint. The code appends a second record every time (`Tracker.RegisterTwiceKeepsBoth`). The new name is kept as well, not ignored.
- **The empty payload does not decode to the empty list.** One would expect `""`, the encoding of the empty registry, to decode to `[]`. The code splits `""` into one empty entry, and `parts[1]` then throws (`Peer.DecodeEmptyPayloadFails`). Only a payload that is made of colons alone once trimmed, such as `:`, `::` or ` : `, decodes to `[]` (`Peer.EmptyDirectoryPayloads`). A peer never actually receives `""`, because the tracker appends the registering peer before it encodes the list.
- **A peer sends its chat lines to itself too.** `new DatagramSocket()` binds to the wildcard address, so `getLocalAddress()` never equals an address the tracker recorded from a datagram's source. The self-exclusion test is then true for every entry. Since a peer's own entry is always in its directory (`Protocol.JoinInstallsSnapshot`), the peer receives each of its own lines (`Peer.ForeignLocalAddressSendsToAll`).

## Model

| member | source | states |
|---|---|---|
| Tracker.Register | Tracker.java:33-36 | REGISTER adds exactly one record, at the end. Every earlier record is unchanged and in place, and the new record holds the sender's endpoint and the given username. |
| Tracker.RegisterCounts | Tracker.java:35-36 | After a REGISTER, the multiset of registered endpoints is the old one plus one copy of the sender. |
| Tracker.RegisterTwiceKeepsBoth | Tracker.java:35-36 | There is no deduplication: registering the same endpoint twice adds two records for it, one per name, in order. |
| Tracker.RemovePeer | Tracker.java:68-79 | `removePeer` never lengthens the registry and never introduces a record. |
| Tracker.RemovePeerCounts | Tracker.java:68-79 | `removePeer` takes away one copy of the endpoint when there is one, and leaves every other endpoint's count unchanged. |
| Tracker.RemovePeerRemovesFirstMatch | Tracker.java:70-77 | When `i` is the first index whose address and port match, the result is the registry with exactly record `i` cut out, and the rest keep their order. |
| Tracker.RemovePeerAbsent | Tracker.java:69-78 | When no record matches, the registry is returned unchanged and there is no error. |
| Tracker.EncodePeerList | Tracker.java:51-61 | Only the empty registry encodes to the empty string. |
| Tracker.EncodePeerListIsJoin | Tracker.java:51-59 | Appending `entry + ":"` for each record and then deleting the last character gives the `address,port` entries joined by `:`, with no trailing separator. |
| Tracker.EncodePeerListEndsWith | Tracker.java:51-59 | The list of a registry whose last record is the sender ends with the sender's `address,port` entry. |
| Tracker.Dispatch | Tracker.java:26-42 | The dispatch fails exactly on the payloads where `parts[0]` or `parts[1]` is out of bounds. It replies exactly when the first field is `REGISTER`, and the reply goes to the sender and is never empty. |
| Tracker.DispatchRegister | Tracker.java:33-38 | A REGISTER with a second field appends `(sender, second field)`. Its reply is the encoding of the old endpoints followed by the sender, and it ends with the sender's entry. |
| Tracker.DispatchUnregister | Tracker.java:39-40 | UNREGISTER removes the sender's first record and sends nothing, whatever else the payload holds. |
| Tracker.DispatchOther | Tracker.java:31-42 | Any other command leaves the registry unchanged and sends nothing. |
| Tracker.DispatchIgnoresPadding | Tracker.java:22-26 | The zero bytes that fill the rest of the 1024-byte receive buffer do not change the outcome, because `trim` removes them. |
| Tracker.SeparatorOnlyPayloadIsFatal | Tracker.java:30-31 | The payload `":"` splits into no fields, so `parts[0]` throws. |
| Tracker.FatalPayloads | Tracker.java:26-34 | The dispatch throws exactly on two kinds of payload. One is a trimmed payload that is non-empty and made only of colons (no `parts[0]`). The other is a payload whose only field is `REGISTER` (no `parts[1]`). |
| Tracker.EntryText | Tracker.java:53 | A peer-list entry is the address, then `,`, then the decimal port, each at its position. It ends in a digit. |
| Tracker.Run | Tracker.java:21-43 | Weaker than the loop's behaviour, as admitted under Left out: the contract bounds only the number of replies, at most one per datagram. The `Run…` lemmas state the rest. |
| Tracker.RunCrashesIffFatal | Tracker.java:21-43 | The receive loop stops with an exception exactly when some datagram's payload is one of the failing ones. |
| Tracker.RunRepliesToSenders | Tracker.java:36-38 | Every datagram the loop sends goes to an endpoint that sent it a datagram, and none is empty. |
| Tracker.RunKeepsOrigins | Tracker.java:33-40 | Every record in the final registry was either there at the start or belongs to an endpoint that sent a datagram. |
| Tracker.Serve | Tracker.java:21-43 | The iterative loop over the inbound datagrams gives the same registry, replies and exception as the recursive reference `Run`. |
| Peer.RegisterRequest | Peer.java:57-61 | The registration datagram goes to the tracker, and its payload is `REGISTER:` followed by the username. |
| Peer.UnregisterRequest | Peer.java:80-85 | The unregistration datagram goes to the tracker, and its payload is `UNREGISTER:` followed by the username. |
| Peer.DecodeEntry | Peer.java:70-74 | An entry decodes exactly when it has at least two `,`-fields and the second one parses as an `int`. The address then holds no `,`. The missing-address error occurs exactly when the entry splits into no fields. |
| Peer.CommaOnlyEntryHasNoAddress | Peer.java:70-71 | The entries `,` and `,,` split into no fields, so `parts[0]` throws before any port is read. |
| Peer.DecodeEntries | Peer.java:69-77 | On success, the directory has one endpoint per entry, each the decoding of its entry, in payload order. On failure, the error is that of the first entry that fails, and every earlier entry decodes. |
| Peer.DecodePeerList | Peer.java:67-77 | Every decoded endpoint has an address with no `:` or `,` and a port in the `int` range. |
| Peer.DecodeEmptyPayloadFails | Peer.java:67-72 | The empty payload yields one empty entry with no port field, so decoding fails with the missing port. |
| Peer.EmptyDirectoryPayloads | Peer.java:67-69 | A payload decodes to the empty directory exactly when, once trimmed, it is non-empty and made only of colons. |
| Peer.SeparatorOnlyPayloadIsEmpty | Peer.java:67-69 | The payload `":"`, one example of a payload of colons only, has no entries and decodes to the empty directory. |
| Peer.HandleRegisterReply | Peer.java:67-77 | The reply succeeds exactly when it decodes, and then the decoded endpoints are appended to the directory in order. The username and tracker are unchanged. A reply that does not decode yields the exception that ends the peer. |
| Peer.ChatLine | Peer.java:109 | The chat line is `[`, the timestamp, `] `, the username, `: ` and the message, each at its position. |
| Peer.Recipients | Peer.java:113-117 | An endpoint is a recipient exactly when it is in the directory and is not the local endpoint. Each recipient occurs as often as in the directory, and the local endpoint never occurs. |
| Peer.RecipientsAppend | Peer.java:113-117 | Filtering distributes over concatenation, so the recipients keep directory order. |
| Peer.RecipientsWithoutSelf | Peer.java:113-117 | A directory that does not contain the local endpoint is sent to in full. |
| Peer.ForeignLocalAddressSendsToAll | Peer.java:113-117 | When no entry has the local address, as with the wildcard address of an unbound socket, every entry gets the line, the peer's own entry included. |
| Peer.SendMessageToPeers | Peer.java:108-118 | The method sends one datagram per recipient, in directory order, each carrying the same chat line. No datagram goes to the local endpoint or outside the directory. |
| JavaText.Trim | Tracker.java:26 | Trimming never lengthens a string, and the result neither starts nor ends with a character at or below the space character. |
| JavaText.Split | Tracker.java:30 | No field contains the separator, and a string without the separator is its own single field. |
| JavaText.SplitEmptyIffSeparatorsOnly | Tracker.java:30-31 | `split` returns no fields exactly when the string is non-empty and made only of separators. |
| JavaText.IntToString | Tracker.java:53 | The decimal text of an `int` is non-empty, ends in a digit, and holds only digits and `-`. |
| JavaText.ParseInt | Peer.java:72 | A successful parse yields an `int` in the 32-bit range, from non-empty text whose characters after the first are digits. A leading `-` gives a value of at most zero. |
| JavaText.TrimIgnoresPadding | Peer.java:67 | Trimming text followed by zero bytes gives the same result as trimming the text alone. |
| JavaText.ParseIntOfIntToString | Peer.java:72 | `Integer.parseInt` reads back every `int` that `Integer.toString` writes. |
| Protocol.DecodeEntryOfEntryText | Peer.java:70-74 | The peer reads each `address,port` entry the tracker writes back as the same endpoint. |
| Protocol.EncodedPeerListIsTrimmed | Peer.java:67 | The peer's `trim` does not alter the tracker's encoding of a non-empty list whose first address does not start with a character at or below the space character. |
| Protocol.EncodedPeerListFields | Peer.java:68 | Splitting the encoding on `:` gives back the tracker's entries. |
| Protocol.PeerListRoundTrip | Peer.java:67-75 | Decoding the tracker's encoding gives the list back, in order. This holds for every non-empty list whose addresses hold no `:` or `,`, whose ports are in the `int` range, and whose first address does not start with a character at or below the space character. Addresses from `getHostAddress` meet all of these. |
| Protocol.PaddedPeerListRoundTrip | Peer.java:63-75 | The round trip still holds when the receive buffer's zero padding follows the payload. |
| Protocol.EmptyPeerListDoesNotRoundTrip | Tracker.java:57-61 | The empty registry encodes to `""`, which the peer fails to decode. |
| Protocol.RegisterPayloadRegisters | Tracker.java:26-38 | A peer's REGISTER payload splits into exactly `REGISTER` and its username, and the tracker stores that username and replies with the new list. This holds when the username has no `:` and does not end in a blank. |
| Protocol.BlankUsernameCrashesTracker | Tracker.java:26-34 | A REGISTER payload whose username is empty or blank keeps only the command field, and the tracker throws on `parts[1]`. |
| Protocol.UnregisterPayloadUnregisters | Tracker.java:26-40 | For every username, the peer's UNREGISTER payload removes the sender's first record and gets no reply. |
| Protocol.JoinInstallsSnapshot | Peer.java:57-77 | A fresh peer that registers ends with a directory equal to the tracker's earlier endpoints followed by its own. |
| Protocol.RegistryScenario | Tracker.java:33-40 | Register A, register B, unregister A, register A: the snapshots are `[A]`, `[A, B]`, `[B]` and `[B, A]`. |
| Protocol.PairEncoding | Tracker.java:51-59 | A two-record list encodes as the two entries with a single `:` between them. |
| Protocol.TwoPeerEncoding | Tracker.java:51-59 | The two-peer registry encodes to `1.2.3.4,5000:5.6.7.8,6000`. |
| Protocol.DecodeScenario | Peer.java:67-75 | `1.2.3.4,5000:5.6.7.8,6000` decodes to the two endpoints, in order. |
| Protocol.BroadcastScenario | Peer.java:113-117 | A directory holding the local endpoint and one other peer sends only to the other peer. |

## Left out

- Sockets, the send and receive calls, and the `getBytes` / `new String(byte[])` charset conversion. Sends are returned datagrams. Payloads are Dafny strings, and the receive buffer's zero padding is represented by trimmable characters.
- The 1024-byte limit and the truncation of longer datagrams. Payloads have unbounded length.
- The peer's listener thread (`startListening`), which only prints what arrives, and all console interaction: `main`, the `Scanner`, the `exit` loop of `startChat`, and every `println`.
- `InetAddress.getByName`, `getHostAddress` and `getLocalHost`. Addresses are opaque text compared literally, so IPv6 text and host-name resolution are not modelled. Neither is the `UnknownHostException` a bad address would raise.
- `new Date()` and its formatting: the timestamp is a parameter of `Peer.ChatLine` and `Peer.SendMessageToPeers`.
- The port-range check made by `DatagramPacket`: ports are `int`s as parsed.
- The peer's assumption that the first datagram it receives after registering is the tracker's reply.
- The constant `TRACKER_PORT` (12345): the tracker's endpoint is part of `Peer.PeerState`.
- Peer.SendMessageToPeers: `self` stands for `socket.getLocalAddress()` and `getLocalPort()`, taken as a parameter, and the self-exclusion its contract states holds only for that parameter. The socket is created by `new DatagramSocket()`, which binds to the wildcard address. Its local address therefore never equals a recorded source address, the test on Peer.java:114 is true for every entry, and the program sends every line to its own entry too. `Peer.ForeignLocalAddressSendsToAll` is the case the program actually runs.
- JavaText.ParseInt: accepts only ASCII digits. Java's `parseInt` also accepts other Unicode decimal digits.
- Tracker.Run: its own contract states only the bound on the number of replies. Its properties are stated by the `Run…` lemmas and by `Tracker.Serve`.
- Peer.HandleRegisterReply: on a failing entry it returns only the error. Java has by then already appended every earlier entry to `peers` (Peer.java:75). The exception then escapes `startChat`'s `catch (IOException)` and `main`'s `catch (UnknownHostException)` and ends the peer, so that partial directory is never used.
- JavaText.Trim: its contract does not say that the result is the slice between the first and last non-blank characters. `JavaText.TrimOfTrimmed` and `JavaText.TrimIgnoresPadding` state what the programs rely on.
- JavaText.IntToString: its contract gives only the shape of the text. The value it denotes is stated by `JavaText.ParseIntOfIntToString`.
