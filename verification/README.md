# KiWii: a verified model of the service's protocols

KiWii is a self-hosted Mario Kart Wii online service. Behind thin socket code it runs several small stateful
protocols over byte formats of its own. This project models them as step machines, from a state, a packet and clock
readings to a new state and the datagrams sent, and proves what every run of them keeps.

The parts that the source writes as loops over mutable state are classes, arrays and loops here. Each method is proved
equal to a specification function, and the properties are proved of those functions over all inputs, all runs and all
interleavings.

| module | what it models |
|---|---|
| `Bytes`, `Clock`, `Fields`, `Splitting` | octets, fixed-width integers, searching, `\key\value` fields, splitting |
| `Framing` | the append, find, erase loop that takes `\final\` messages off a TCP stream |
| `Gamestats` | the XOR cipher of the gamestats connection, over that framing |
| `Rc4`, `Base64` | the modified RC4 in place, and the QR and NAS base64 encoders |
| `QrCodec`, `QrServer` | heartbeats, challenges, encrypted answers, registrations |
| `Sessions`, `PlayerSearch` | the two-map registry of online sessions, and searches in it |
| `NatnegCodec`, `NatnegServer` | init records, session tracking, expiry and pairing |
| `Nas`, `Sake` | accounts, profile ids, login sessions, stored records |
| `Buddies`, `Profile` | the buddy request table and the requests that change it |
| `Browser`, `Dns` | the server browser request and reply, the DNS responder |

Conventions. A byte is an integer below 256, and 16-, 32- and 64-bit integers are bounded or taken modulo their range
explicitly; shifts and masks are written as quotients and remainders. Clock readings, random letters, random texts and
client endpoints are arguments. A map that the source walks in its own order is walked here in an arbitrary order, so
what is proved holds for every order.

Five results are about properties that the code does not always have. Each gives the exact condition, on the input and
not on what the code makes of it:

- `Gamestats.CipherTwice` and `Gamestats.EndToEnd`: decryption undoes encryption, and messages sent encrypted arrive as
  they were, exactly when nothing before the first `\final\` is a decoy, which is seven bytes that read `\final\` once
  encrypted. `Gamestats.EncryptionCanSplitAMessage` gives a message that arrives as two.
- `Browser.ReplyDecodes`: the reply decodes to its fields exactly when their number fits in 16 bits; every request that
  parses into a fresh record is within that bound.
- `Nas.AccountKeyIsUnambiguous`: an account key belongs to one pair of address and console number exactly when neither
  holds a bar; `Nas.AccountKeysCanCollide` gives two pairs with one key.
- `Nas.RunKeepsInv`: both id tables are bijections after a run exactly when there are 64-bit numbers left for all the
  new keys and users that the run asks for.
- `Sake.Store.IdsRepeatAfterWrap`: two records have the same id exactly when a multiple of 2^64 records lies between them.

Some facts that the proofs bring out: a heartbeat puts a session online before any challenge is answered
(`QrServer.AfterHeartbeat`); a shutdown heartbeat discards the pending challenge and sends a new one in the same step;
a sign of life counts before the age limit is applied, so a session that was silent for too long comes back if nothing
else has expired it (`QrServer.ExpiryIsExact`); and once three clients share a NATNEG session nobody is connected in it
until it expires (`NatnegServer.ThirdClientSilencesSession`).

## Model

| member | source | states |
|---|---|---|
| Framing.FrameIsFraming | src/server_profile.cpp:67-74 | The messages and the residue concatenate to the stream, each message has its first `\final\` at its end, and the residue has none |
| Framing.FramingIsUnique | src/server_profile.cpp:67-74 | A stream has only one such decomposition |
| Framing.FrameResumes | src/server_profile.cpp:66-74 | Framing may stop after any prefix of the stream and resume from the residue |
| Framing.ChunkIndependence | src/server_discovery.cpp:235-248 | However a stream is cut into chunks, the loop yields the messages and the residue of the whole stream |
| Framing.RequestBuffer.Receive | src/server_profile.cpp:66-74 | Appending a chunk and taking messages off leaves exactly the framing of what was held and what came |
| Framing.RequestBuffer.ReceiveAll | src/server_gamestats.cpp:68-84 | The receive loop of a connection yields the framing of the whole stream |
| Gamestats.GamespyMessage | src/server_gamestats.cpp:28-37 | The in-place loop XORs the bytes before the first `\final\` with the repeating key and no others |
| Bytes.XorIsBitwise | src/server_gamestats.cpp:34 | Each bit of the exclusive or of two bytes is one exactly where they differ |
| Gamestats.CipherAt | src/server_gamestats.cpp:28-37 | A byte is XORed with the key byte of its position unless a `\final\` starts at it or before it, and is otherwise unchanged |
| Gamestats.CipherTwice | src/server_gamestats.cpp:28-37 | Encrypting twice restores a text exactly when nothing before its first `\final\` is a decoy: seven bytes that read `\final\` once encrypted |
| Gamestats.EncryptionFrames | src/server_gamestats.cpp:28-80 | An encrypted message still has its first `\final\` at its end exactly when the message has no decoy |
| Gamestats.ReceivedIfFramable | src/server_gamestats.cpp:28-84 | Messages without decoys are received unchanged through any chunking |
| Gamestats.FramableIfReceived | src/server_gamestats.cpp:28-84 | Messages received unchanged have encryptions that frame and that decrypt to them |
| Gamestats.EndToEnd | src/server_gamestats.cpp:28-84 | Encrypt, concatenate, cut anywhere, frame, decrypt: the same list comes back exactly when no message has a decoy |
| Gamestats.MessageEncryptingTo | src/server_gamestats.cpp:28-37 | For any text that never encrypts to a backslash there is a message whose encryption is that text and `\final\` |
| Gamestats.EncryptionCanSplitAMessage | src/server_gamestats.cpp:28-84 | A concrete message whose encryption is framed as two messages |
| Gamestats.KeepaliveFrames | src/server_gamestats.cpp:44-49 | The server's keepalive survives encryption and framing |
| Gamestats.ChallengeFrames | src/server_gamestats.cpp:59-61 | For every ten uppercase letters the server's challenge survives encryption and framing |
| Gamestats.ChallengeIsRead | src/server_gamestats.cpp:59-60 | The challenge field of the challenge is the ten letters, and its `\lc\` and `\id\` fields are 1 |
| Gamestats.OnlyKeepaliveDecryptsToKeepalive | src/server_gamestats.cpp:44-49 | Among framed messages only the encrypted keepalive decrypts to the keepalive |
| Gamestats.KeepalivesAnswered | src/server_gamestats.cpp:44-84 | A client whose messages have no decoys gets exactly one encrypted keepalive per keepalive, however its stream is cut |
| Gamestats.HandleMessage | src/server_gamestats.cpp:44-49 | A framed message is answered exactly if it is the encrypted keepalive |
| Gamestats.HandleMessages | src/server_gamestats.cpp:75-84 | Messages are answered one by one in order |
| Gamestats.HandleConnection | src/server_gamestats.cpp:53-87 | A connection is sent the encrypted challenge and, unless that fails, the replies to the whole stream's messages |
| Rc4.Rc4Transform | src/gamespy_qr.cpp:30-55 | The in-place loops compute the recursive transform of the scheduled key, which `Rc4.Rc4Exactly` states position by position |
| Rc4.ScheduleKey | src/gamespy_qr.cpp:32-43 | The in-place swaps compute the recursive key schedule |
| Rc4.TransformByte | src/gamespy_qr.cpp:48-53 | One turn of the loop advances the generator and encrypts one byte as the specification does |
| Rc4.Rc4Exactly | src/gamespy_qr.cpp:32-54 | A text is the cipher text exactly if there are tables and indices such that scheduling exchanges position n with the running sum of indices, entries and key bytes, the first index at byte i is i + 1 plus the sum of the plaintext up to it, the second adds the entry at the first, both entries are exchanged, and the byte is XORed with the entry at their sum, all modulo 256 |
| Rc4.AlwaysPermutation | src/gamespy_qr.cpp:32-53 | For every key, each byte value stands in the table exactly once after scheduling and after any number of output bytes |
| Rc4.Causal | src/gamespy_qr.cpp:45-54 | The transform of a text is a prefix of the transform of any extension of it |
| Base64.QrBase64Encode | src/gamespy_qr.cpp:57-74 | The loop over packed 24-bit groups computes the encoding of section 4 of RFC 4648 with `=` |
| Base64.NasBase64Encode | src/nas_http.cpp:31-56 | The loop over packed 24-bit groups computes the encoding of section 4 of RFC 4648 with `*` |
| Base64.PackedBits | src/gamespy_qr.cpp:63-71 | Packing three bytes and cutting in four gives the groups of six bits that section 4 of RFC 4648 describes |
| Base64.DecodeEncode | src/gamespy_qr.cpp:57-74 | An independent decoder returns every byte string from its encoding |
| Base64.EncodedLength | src/gamespy_qr.cpp:57-74 | The encoding has four characters for every three bytes or part of three |
| Base64.EncodedHasNoZero | src/gamespy_qr.cpp:57-74 | No encoding contains a zero byte |
| Base64.NasIsQrWithStars | src/nas_http.cpp:31-56 | The NAS encoding of any bytes is the QR encoding with `*` for `=` |
| QrCodec.AvailabilityExactly | src/gamespy_qr.cpp:80-95 | Exactly one packet asks for availability |
| QrCodec.HeartbeatIsRecognised | src/gamespy_qr.cpp:97-108 | A command-3 packet whose payload starts with the local address and names the game anywhere is a heartbeat of its session |
| QrCodec.HeartbeatShape | src/gamespy_qr.cpp:97-108 | Every heartbeat is such a packet |
| QrCodec.FieldIsRead | src/gamespy_qr.cpp:120-134 | A field is read back when its key and terminator first occur where the field is, up to a zero byte or the end |
| QrCodec.FieldExactly | src/gamespy_qr.cpp:120-134 | A packet reads as a value exactly if it carries that value after the first occurrence of the key, or has no such key and the value is empty |
| QrCodec.ChallengeCarriesItsText | src/gamespy_qr.cpp:141-173 | The challenge reply has 28 bytes, starts with fe fd 01 and the session, its only zero after byte 7 is the last, and the stored text is the six letters, two zeros and hexadecimal digits that decode to the client's address and port |
| QrCodec.RegisteredReads | src/gamespy_qr.cpp:175-185 | A registration is fe fd 0a and the session |
| QrCodec.MatchesExactly | src/gamespy_qr.cpp:187-203 | Exactly two packets of a session answer its challenge: the client's answer with and without the last zero byte |
| QrCodec.AcceptedAnswerDecodes | src/gamespy_qr.cpp:187-203 | The text of every accepted answer base64-decodes to the cipher text of the challenge under the key and a zero byte |
| QrCodec.PartsOfClientResponse | src/gamespy_qr.cpp:205-227 | The client's answer is a command-1 packet of its session |
| QrCodec.QrChallengeMatches | src/gamespy_qr.cpp:187-203 | The comparison through the cipher and base64 loops decides the specified match |
| QrCodec.QrClientChallengeResponse | src/gamespy_qr.cpp:205-227 | The builder yields the specified answer, and nothing for an empty key |
| QrServer.StepConserves | src/server_discovery.cpp:94-138 | One packet balances challenges sent, registrations, discards and the pending challenge of every session |
| QrServer.Conservation | src/server_discovery.cpp:94-138 | In every run, for every session: challenges sent and pending before are registrations, discards by shutdown and pending after |
| QrServer.RegistrationsNeedChallenges | src/server_discovery.cpp:94-138 | From the empty state no session is registered more often than challenged |
| QrServer.SentInOrder | src/server_discovery.cpp:74-147 | What a run sends is what its steps send, in order, each from the state that the earlier ones leave |
| QrServer.PendingUntilAnswered | src/server_discovery.cpp:91-138 | Exactly when a packet takes a pending challenge away or replaces it by another text |
| QrServer.CommandOne | src/server_discovery.cpp:94-104 | A command-1 packet of a challenged session registers it and drops the challenge if it is one of the two answers, and otherwise, as with an empty key, sends and changes nothing |
| QrServer.HandshakeCompletes | src/server_discovery.cpp:86-138 | A client that answers the challenge it was sent is registered, whatever packets come between that neither answer it nor end the session |
| QrServer.PendingIsHistory | src/server_discovery.cpp:91-138 | In every run a challenge is pending exactly if some packet was answered with it and every packet since then neither answered it nor ended its session |
| QrServer.PendingTextsNameEndpoints | src/server_discovery.cpp:124-132 | In every run each pending challenge holds the letters of a heartbeat of its session and decodes to the address and port that heartbeat came from |
| QrServer.TextsStayWhole | src/server_discovery.cpp:130-132 | From any such state, in every run each stored challenge has 20 characters, the last twelve of which decode to six octets |
| QrServer.AfterHeartbeat | src/server_discovery.cpp:105-138 | Every heartbeat leaves a challenge pending and registers nobody; the session is online after it exactly if it is no shutdown |
| QrServer.SessionSays | src/server_discovery.cpp:111-122 | The session of a packet has the nick, game and endpoint it says, and as profile its profile id, else its user id, else the decimal session id |
| QrServer.HeartbeatGoesOnline | src/server_discovery.cpp:105-123 | A heartbeat that says its state changed to 2 takes its session offline; any other puts the session it says online, at the clock reading of the insertion |
| QrServer.AvailabilityIsAnswered | src/server_discovery.cpp:139-144 | The one availability request is answered with fe fd 09 and four zero bytes; packets that are no heartbeat and no command 1 are otherwise unanswered |
| QrServer.ExpiryIsExact | src/server_discovery.cpp:87-90 | Exactly which sessions are online after a packet, with which data: its own by the reading of its sign of life, others by their last one, a heartbeat's session unless it ends; so no session is older than 61 seconds |
| QrServer.OnlineIsHistory | src/server_discovery.cpp:87-123 | In every run a session is online, with these data, exactly if a heartbeat of it put it online so and all later packets, none of them its heartbeats, came within 61 seconds of its last sign of life; or if it was online before and the whole run kept it so |
| QrServer.Server.HandleHeartbeat | src/server_discovery.cpp:105-135 | The challenge map and the registry change as specified and at most one challenge is sent |
| QrServer.Server.TouchAndPrune | src/server_discovery.cpp:86-90 | The sender's session is touched first and then expired ones are gone |
| QrServer.Server.HandlePacket | src/server_discovery.cpp:74-148 | The handler's new challenge map, registry and reply are those of the step function |
| QrServer.Server.Serve | src/server.cpp:100-102 | Handling packets one after the other is the run that the lemmas speak about, for challenges, datagrams and online sessions |
| Sessions.Registry.UpsertOnlineSession | src/gamespy_sessions.cpp:16-20 | The two maps change as one map from id to session and last reading |
| Sessions.Registry.TouchOnlineSession | src/gamespy_sessions.cpp:22-27 | Only a known session's last reading changes |
| Sessions.Registry.RemoveOnlineSession | src/gamespy_sessions.cpp:29-33 | Exactly that session leaves both maps |
| Sessions.Registry.PruneOnlineSessions | src/gamespy_sessions.cpp:35-46 | Erasing while iterating keeps exactly the sessions last seen after the cutoff |
| Sessions.Registry.OnlineSessionsForProfiles | src/gamespy_sessions.cpp:48-60 | For each profile in order, each of its online sessions once, in any order within one profile |
| Sessions.Registry.Execute | src/gamespy_sessions.cpp:16-46 | Any interleaving of the operations does to the two maps what it does to the one |
| Sessions.AnswerMultiplicity | src/gamespy_sessions.cpp:48-60 | Every online session is listed as often as its profile is asked for, and nothing else is listed |
| Sessions.AnswerInOrder | src/gamespy_sessions.cpp:48-60 | Sessions are listed in the order of the profile ids asked for, and no session twice for one of them |
| Sessions.StaysOnline | src/gamespy_sessions.cpp:16-46 | A session stays online, with its data and seen no earlier, through every interleaving of steps that neither replace nor remove it, touch it no earlier and prune only what is older |
| Sessions.EntryIsHistory | src/gamespy_sessions.cpp:16-46 | After every interleaving each session has exactly the entry that the steps about it alone, and the cutoffs, give it |
| Sessions.SearchSeesOnlyNewer | src/server_discovery.cpp:194-220 | Whatever other connections do between a search's pruning and its lookup, every session it can find is newer than its own cutoff |
| PlayerSearch.SplitOpids | src/server_discovery.cpp:205-218 | The cursor loop collects exactly the non-empty pieces between bars |
| PlayerSearch.LookUp | src/server_discovery.cpp:197-224 | The reply lists for each requested profile in order its online sessions, each once |
| PlayerSearch.RequestedProfilesOfJoin | src/server_discovery.cpp:198-219 | Ids joined by bars in the first `\opids\` field, of which some may be empty, are read back as the non-empty ones in order |
| PlayerSearch.NothingRequested | src/server_discovery.cpp:198-199 | A request without that field asks for nobody |
| PlayerSearch.PlayerSearchResponse | src/server_discovery.cpp:194-225 | The reply renders an answer over the registry as it is after pruning and after whatever steps other connections take before the lookup; if those are later than the pruning, all it can list is newer than this search's cutoff |
| PlayerSearch.SearchFindsExactly | src/server_discovery.cpp:194-224 | A session is found exactly if its profile is asked for and it was seen after the cutoff, and as often as it is asked for |
| PlayerSearch.HeartbeatIsFound | src/server_discovery.cpp:111-123 | A client whose heartbeat is less than 61 seconds old is found by every search that asks for its profile, as often as it asks, whatever steps between them spare its session |
| PlayerSearch.HeartbeatIsListed | src/server_discovery.cpp:111-224 | The reply to such a search, read back, lists the profile id and the nick that the heartbeat named |
| PlayerSearch.ReplyIsRead | src/server_discovery.cpp:220-224 | A reply without backslashes in its values is read back as its players in order |
| Splitting.PiecesOfJoin | src/gamespy_browser.cpp:51-64 | Splitting inverts joining for non-empty parts free of the separator |
| Splitting.PiecesOfAnyJoin | src/server_discovery.cpp:205-218 | Splitting any parts joined by separators gives those that are not empty, in order |
| Splitting.PiecesKeepTheRest | src/gamespy_browser.cpp:51-64 | Splitting any text loses nothing but separators |
| Splitting.PiecesArePieces | src/gamespy_browser.cpp:51-64 | Every piece is non-empty and free of the separator |
| Fields.FieldIsRead | src/gamespy_profile.cpp:34-44 | A value without backslashes after the first occurrence of its marker is read back |
| Fields.FieldIsPresent | src/gamespy_profile.cpp:36-39 | A message has a field exactly if its marker occurs in it |
| NatnegCodec.ParseOfInitRecord | src/gamespy_natneg.cpp:32-45 | The init record built for a client with a game name, whatever follows the name, parses to that client |
| NatnegCodec.InitRecordsExactly | src/gamespy_natneg.cpp:27-45 | Exactly those packets parse to a client |
| NatnegCodec.InitAckEchoes | src/gamespy_natneg.cpp:47-56 | An acknowledgement has 21 bytes, repeats the record's header, session and index, and ends in seven fixed bytes |
| NatnegCodec.ConnectAckEchoes | src/gamespy_natneg.cpp:75-83 | A connect acknowledgement is the packet itself, or nothing if its header is not a NATNEG header |
| NatnegCodec.ConnectDecodes | src/gamespy_natneg.cpp:58-73 | A connect has 20 bytes and decodes to the record's session and the peer's address and port |
| NatnegCodec.OnlyConnectsDecode | src/gamespy_natneg.cpp:47-100 | No other reply can be taken for a connect |
| NatnegCodec.AddressReplyReads | src/gamespy_natneg.cpp:85-100 | An address reply tells the endpoint that the server saw and repeats the rest of the request |
| NatnegCodec.NatnegConnect | src/gamespy_natneg.cpp:58-73 | The byte-by-byte builder yields the specified connect |
| NatnegCodec.NatnegAddressReply | src/gamespy_natneg.cpp:85-100 | Overwriting in place yields the specified reply |
| NatnegServer.StepLeavesNoneEmpty | src/server_game.cpp:77-93 | No stored session is ever empty |
| NatnegServer.StepKeepsInv | src/server_game.cpp:76-93 | The keys of stored clients are those re-parsed from the stored init records, and stored addresses and ports are the stored endpoints |
| NatnegServer.AllActiveAfterInit | src/server_game.cpp:77-93 | After an init record every session has a client seen less than 30 seconds ago |
| NatnegServer.RunKeepsInv | src/server_game.cpp:29-107 | Both hold in every run |
| NatnegServer.Pairing | src/server_game.cpp:70-105 | Connects are sent exactly when an init record leaves its session with two clients; then two 20-byte connects introduce each client to the other |
| NatnegServer.PairingInEveryRun | src/server_game.cpp:29-105 | The same at every step of every run from the empty state |
| NatnegServer.ConnectsJoinSenders | src/server_game.cpp:70-105 | In every run each connect goes to where a client's latest init record came from and names where the latest init record of another client of the session came from |
| NatnegServer.StoredIsHistory | src/server_game.cpp:70-93 | In every run a client is stored exactly if its session has not expired since its latest init record, and what is stored is that record with its sender's address and port |
| NatnegServer.SenderIsAnswered | src/server_game.cpp:45-74 | Init records are acknowledged to their sender, connect acknowledgements echoed, address requests answered with the sender's own endpoint, and nothing else is answered |
| NatnegServer.SentInOrder | src/server_game.cpp:34-107 | What a run sends is what its steps send, in order, each from the state that the earlier ones leave |
| NatnegServer.Isolation | src/server_game.cpp:46-93 | A packet that is no init record of a session leaves it alone or expires it as a whole |
| NatnegServer.ExpiryIsExact | src/server_game.cpp:61-93 | An init record removes exactly the sessions without a client seen less than 30 seconds before, each as a whole, and adds its sender; nothing else changes |
| NatnegServer.ClientsStay | src/server_game.cpp:77-93 | A session that does not expire keeps all its clients |
| NatnegServer.GrowthNeedsRecentPeer | src/server_game.cpp:77-94 | When a session grows from one client to two, the waiting client was seen less than 30 seconds before |
| NatnegServer.ThirdClientSilencesSession | src/server_game.cpp:92-105 | Once a session has three clients, no connect names it until it expires |
| NatnegServer.PeersMeet | src/server_game.cpp:46-105 | If another index joins a freshly opened session within 30 seconds of the opener's latest init record, each gets a connect at the address it sent from that names the address the other sent from, whatever packets of other sessions and kinds and repeated init records of the opener come between |
| NatnegServer.Server.IsActive | src/server_game.cpp:79-85 | The inner loop decides whether some client was seen less than 30 seconds ago |
| NatnegServer.Server.PruneSessions | src/server_game.cpp:77-91 | Erasing while iterating keeps exactly the active sessions |
| NatnegServer.Server.ConnectPair | src/server_game.cpp:94-105 | The two connects are sent in the order of the indices |
| NatnegServer.Server.StoreClient | src/server_game.cpp:70-93 | Expired sessions are gone and the client is stored under its session and index with the sender's endpoint |
| NatnegServer.Server.HandlePacket | src/server_game.cpp:34-107 | The handler's new sessions and datagrams are those of the step function |
| NatnegServer.Server.Serve | src/server.cpp:110-112 | Handling packets one after the other is the run that the lemmas speak about |
| Nas.NumberNext | src/nas_http.cpp:138-140 | Giving a new key the next number keeps a table a bijection onto consecutive decimal texts |
| Nas.StepKeepsInv | src/nas_http.cpp:132-158 | Every atomic step keeps both tables bijections onto consecutive numbers, unless it gives out the last number of a counter |
| Nas.NeverWrapsExactly | src/nas_http.cpp:138-154 | No counter wraps around in a run exactly when there are numbers left for the different new keys and users that it asks for |
| Nas.RunKeepsInv | src/nas_http.cpp:89-158 | Over every interleaving, both tables are bijections at the end exactly when there are numbers left for the new keys and users of the run |
| Nas.IdsAreDistinct | src/nas_http.cpp:89-158 | From the start, different keys have different user ids and different users different profile ids as long as the numbers suffice |
| Nas.RunKeepsLogins | src/nas_http.cpp:132-141 | Over every interleaving, with or without wrap-around, no assignment ever changes, and logins keep the profile ids of their users |
| Nas.CredentialsCarryTheProfile | src/nas_http.cpp:263-318 | Credentials found for a token carry the profile id that their user has and keeps in every later run |
| Nas.LoginsAreHistory | src/nas_http.cpp:317-318 | In every run the login stored for a user is the one that this user stored last |
| Nas.TokenFindsItsLogin | src/nas_http.cpp:263-271 | A token that only one user's latest login holds finds that login's user, challenge and profile id, and a token nobody holds finds the default credentials |
| Nas.HandlersArePossible | src/nas_http.cpp:143-318 | However the steps of account creations and logins interleave, every login is stored with a profile id that was answered for its user, so the results on runs apply |
| Nas.AccountKeysOfPlainAddresses | src/nas_http.cpp:144-146 | Among addresses without bars, account keys are equal exactly when address and console number are |
| Nas.AccountKeyIsUnambiguous | src/nas_http.cpp:144-146 | The key of an address and a console number is no other pair's key exactly when neither of them contains a bar |
| Nas.AccountKeysCanCollide | src/nas_http.cpp:144-146 | Two different pairs of address and console number with the same account key |
| Nas.Tables.UserIdForAccount | src/nas_http.cpp:149-156 | A known key keeps its user id, and a new one takes the next number |
| Nas.Tables.ProfileIdForUser | src/nas_http.cpp:132-141 | A known user keeps its profile id, and a new one takes the next number |
| Nas.Tables.StoreLoginSession | src/nas_http.cpp:317-318 | The user's login session is replaced and nothing else changes |
| Nas.Tables.CreateAccountFor | src/nas_http.cpp:143-158 | Uninterrupted, account creation takes the two steps of that request: it finds or makes the user and gives it a profile |
| Nas.Tables.LogInUser | src/nas_http.cpp:309-318 | Uninterrupted, a login takes the two steps of that request, and the stored session has the profile id of its user |
| Nas.Tables.CredentialsForToken | src/nas_http.cpp:263-271 | The credentials are those of some login session with the token, or the default ones if there is none |
| Sake.Store.CreateRecord | src/nas_http.cpp:240-252 | Record ids are the positions in order of creation modulo 2^64, larger than all earlier ids until they wrap around, and the owner's listing grows by the record |
| Sake.Store.IdsRepeatAfterWrap | src/nas_http.cpp:248-252 | The ids of two positions are equal exactly when a multiple of 2^64 lies between them |
| Sake.Store.GetMyRecords | src/nas_http.cpp:217-231 | The loop lists the owner's records in order |
| Sake.RecordsOfExactly | src/nas_http.cpp:222-230 | A listing misses none of the owner's records, repeats none and shows no other owner's |
| Buddies.PendingIsHistory | src/server_profile.cpp:108-136 | In every interleaving a request is pending exactly when the latest event about it is the request |
| Buddies.NeverPendingOnSelf | src/server_profile.cpp:108-112 | No profile is ever pending on itself |
| Buddies.ActiveIsHistory | src/server_profile.cpp:102-140 | A profile's active socket is that of its latest status, unless a connection of the profile closed since |
| Buddies.NoticesReachLatestSocket | src/server_profile.cpp:110-131 | A request is announced on the target's latest socket, an acceptance on its source's latest socket, and nothing elsewhere |
| Buddies.Table.HandleStatus | src/server_profile.cpp:106-107 | The profile becomes active on the connection's socket |
| Buddies.Table.HandleAddBuddy | src/server_profile.cpp:108-120 | The request is recorded and announced unless the target is empty or the profile itself |
| Buddies.Table.HandleAuthAdd | src/server_profile.cpp:121-131 | The request is settled and its source told, unless the source is empty |
| Buddies.Table.HandleDelBuddy | src/server_profile.cpp:132-136 | The request is settled |
| Buddies.Table.HandleClose | src/server_profile.cpp:139-140 | The profile is no longer active |
| Profile.AddBuddyIsRead | src/server_profile.cpp:108-109 | An addbuddy request asks the profile in its first `\newprofileid\` field |
| Profile.AuthAddIsRead | src/server_profile.cpp:121-122 | An authadd request settles for the profile in its first `\fromprofileid\` field |
| Profile.DelBuddyIsRead | src/server_profile.cpp:132-133 | A delbuddy request settles for the profile in its first `\delprofileid\` field |
| Profile.StatusIsRead | src/server_profile.cpp:102-107 | A status request makes the profile active on the connection's socket |
| Profile.BuddyRequestWithoutId | src/server_profile.cpp:108-136 | Buddy requests without their id field are about the empty profile id |
| Profile.StepsExactly | src/server_profile.cpp:102-136 | Exactly the requests that start with one of the four commands and end in `\final\` take a step |
| Profile.TokenIsRead | src/server_profile.cpp:78-90 | A login presents the token in its first `\authtoken\` field |
| Profile.LoginWithoutToken | src/server_profile.cpp:79-89 | A login without that field presents the empty token |
| Profile.CredentialsOfLatestLogin | src/server_profile.cpp:48-91 | A connection acts under the credentials of its latest login, and under the default ones before its first |
| Profile.ActiveUntilClose | src/server_profile.cpp:78-140 | After a status request the profile of the login before it is active on the connection's socket through all its later requests; closing makes the last profile inactive |
| Profile.ActsUnderProfilesOfItsTokens | src/server_profile.cpp:78-140 | Whatever all NAS requests do meanwhile, a connection takes every step, and closes, under the default profile or under the profile that the user of a token it presented has and keeps |
| Profile.HandleRequest | src/server_profile.cpp:78-136 | A login replaces the credentials by those of its token and takes no step; any other request takes the step it asks for, under the current credentials, and sends its notices |
| Profile.HandleConnection | src/server_profile.cpp:58-140 | However its stream is cut, a connection takes the steps of the whole stream's requests, each under the credentials of the login before it, sends the notices of those steps and closes under its last credentials |
| Browser.ReadCString | src/gamespy_browser.cpp:8-19 | The cursor loop returns the text up to the next zero byte and moves past it, or nothing and the end |
| Browser.BrowserRequest.ReadFields | src/gamespy_browser.cpp:51-64 | The loop appends exactly the non-empty pieces between backslashes |
| Browser.BrowserRequest.ParseBrowserRequest | src/gamespy_browser.cpp:28-66 | The result and the record, also after a failure, are those of the parsing function |
| Browser.ParseOfEncoded | src/gamespy_browser.cpp:28-66 | A request of at most 65535 bytes built by an independent encoder parses into a fresh record as it was |
| Browser.ParsedExactly | src/gamespy_browser.cpp:28-66 | A packet parses exactly if it is its own size, a zero byte, six bytes, two names ended by zero bytes, eight bytes, two texts ended by zero bytes, and four bytes or more |
| Browser.ParseOfRequest | src/gamespy_browser.cpp:40-65 | Such a packet parses to its second name, its eight bytes, its first text, and the non-empty pieces of its second text |
| Browser.BrowserRequest.EmptyServerList | src/gamespy_browser.cpp:68-89 | The loop builds the specified reply |
| Browser.ReplyDecodes | src/gamespy_browser.cpp:68-89 | The reply decodes to its fields exactly when their number fits in 16 bits |
| Browser.ParsedFields | src/gamespy_browser.cpp:33-64 | A request that parses into a fresh record has fewer than 65536 fields, all free of zero bytes |
| Browser.ReplyToParsedRequest | src/server_game.cpp:135-143 | The reply to any request that parses decodes to that request's fields |
| Dns.DnsAResponse | src/gamespy_dns.cpp:7-53 | The label walk and the overwriting in place yield the specified response |
| Dns.AnsweredExactly | src/gamespy_dns.cpp:9-24 | A request is answered exactly when it is a header, a question of labels of 1 to 63 bytes, and anything after it |
| Dns.ResponseToQuestion | src/gamespy_dns.cpp:40-52 | The response is a message with the same question, rewritten flags and counts, and the record after it |
| Dns.TrailingNeverMatters | src/gamespy_dns.cpp:13-52 | Requests that differ only after the question get the same response |
| Dns.AnsweringIsIdempotent | src/gamespy_dns.cpp:13-52 | Answering a response yields the same response |
| Dns.ResponseIsRead | src/gamespy_dns.cpp:28-52 | An independent reader finds no error, one question and one answer, the request's id and question, a pointer to that question, 60 seconds and the address |

## Left out

- Sockets, the select loop, threads, TLS, the relay and the health listener: foreign calls. Received packets are of any
  size here, while the source reads at most 2048, 512 or 4096 bytes at a time.
- The failure of a send, except that of the gamestats challenge: later sends are not checked in the source either.
- Text parsing of dotted addresses for the DNS answer and the QR challenge: four octets are passed in.
- Random letters and texts, dates, the MD5 proof, environment configuration: library calls. Random values are arguments.
- HTTP and SOAP texts, and how user ids, account parameters and Sake values are cut out of requests: templates and
  first-substring searches. Account keys, user ids and record values are passed in.
- The read loop of NAS requests: its 8192-byte limit and its search of the whole text make it depend on chunking.
- Profile names and the replies to logins, profile requests and keepalives: templates over values passed in. The text of
  buddy notices, which holds the date, is reduced to its command and source.
- Inverting the modified RC4: its first index depends on the plaintext, and nothing in the service decrypts.
- Profile.HandleConnection: runs one connection alone; several connections interleave as sequences of the same steps in
  `Buddies.PendingIsHistory`, and with NAS requests in `Profile.ActsUnderProfilesOfItsTokens`.
- QrServer.OnlineIsHistory: runs of packets only; the pruning by searches in between is the subject of
  `Sessions.StaysOnline` and `Sessions.SearchSeesOnlyNewer`.
