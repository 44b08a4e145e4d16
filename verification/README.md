# A verified model of lproxy

lproxy carries SOCKS5 connections through an encrypted tunnel between a local process and a server process.
This project models, in Dafny, the parts of it whose correctness spans many steps or many functions, and proves
what they are for:

- **The tunnel.** A packet is a 4-byte header (version, type, 16-bit length) and data. A read may return any
  number of bytes, so both sides rebuild packets with a continuation machine that keeps a zero-padded buffer, counts
  real bytes, reads the missing part, cuts off one packet at a time and re-enters itself. `Receiver.dfy` is that
  machine with its mutable buffer; `Reassembly.dfy` is what it does to the byte stream, over every run. On the server the
  first packet is the SOCKS request, which is answered and not forwarded: `Uplink.dfy` is that direction from the request
  on, `ServerUplink.dfy` its object, `Requests.dfy` which first packets lead to the relay. `Handshake.dfy`
  is the hello / exchange handshake of two sessions over two FIFO byte channels, `HandshakeProgress.dfy` how it ends,
  `AnyPeer.dfy` each of the two sessions alone with a channel that brings any bytes. `Relay.dfy` has the operations the
  server session keeps pending and its walk over resolved endpoints, `Overlaps.dfy` the writes it can have under way on
  one socket, `LocalRelay.dfy` the same questions for the local session, `Causes.dfy` what every operation of either side
  is issued behind, `Sessions.dfy` the session objects and whole runs of them, and `Tunnel.dfy` joins the parts from the
  connected sockets to the delivered bytes.
- **POSIX paths.** The vendored `path.cpp`: root detection, `//net` names, the implicit trailing dot, forward and
  backward iteration, `parent_path`, `filename`, `operator/=` (`PosixPath.dfy`, `PathParts.dfy`, `PathObjects.dfy`).
- **The store and the log queue.** A bounded monitor with two condition variables and any number of threads
  (`Store.dfy`, and `StoreCalls.dfy` for what becomes of each call) over a container, in particular the
  priority-factor list (`PriorityQueue.dfy`).
- **Ciphers and codecs.** RC4, the Xor stream, the RSA block loops with their `float` block count, and the SOCKS5
  messages (`StreamCipher.dfy`, `Rc4.dfy`, `XorStream.dfy`, `RsaBlocks.dfy`, `Socks5.dfy`).

Bytes are integers 0..255 and `^` is defined bit by bit. AES in counter mode is an exclusive or with a key stream that
starts again at every call, as the code restarts the counter; the key stream itself is any function of key and offset.
RSA-OAEP is any block cipher with the length and inverse laws of section 7.1 of RFC 8017. What the network does (how many
bytes a read returns, which endpoint accepts, which thread runs next, which random bytes are drawn) is a parameter of
every run.

Where a property one would expect of the code is not always true of it, the model keeps the code as it is and the
condition is proved:

- A read that ends inside a packet header loses data or ends the session; nothing else does
  (`Reassembly.KeepsStreamExactly`).
- On the server, what the local side sent behind the SOCKS request reaches the remote side exactly when, besides, no read
  began before the end of the request packet and ended behind it (`Uplink.KeepsAllExactly`); packets that come in the
  same read as the request are dropped without an error (`Uplink.PipelinedPacketsAreLost`).
- Stepping a path iterator forward and back is exact except at the first element of `//` and of paths with three or
  more leading separators (`PosixPath.DecrementUndoesIncrement`).
- A handshake that can go no further has connected both sides exactly when the server knows the key and no read ended
  inside a packet header (`Handshake.Completes`).
- In a run that was intact so far, the next step puts two writes on the server's left socket exactly when a write to
  the local side is under way and either right_write_handler fails or a fresh read from the local side returns 1 to 3
  bytes, which takes no failed operation (`Overlaps.OverlapsExactly`, `Overlaps.OverlapsHappen`). On the local side two writes
  never overlap (`LocalRelay.LocalOneOperationPerDirection`).
- `parent_path() / filename()` has the elements of the path exactly when the last name holds no NUL, because filename()
  goes through a C string (`PathParts.ParentAndFilenameKeepElements`).
- A store of capacity 0 puts a producer and a consumer to sleep together; a positive capacity never does
  (`Store.NoDeadlock`, `Store.ZeroCapacityDeadlocks`).
- Decrypting an RSA ciphertext gives the message back exactly when the key has a whole number of bytes, which of the
  listed sizes 61140 bits is not, and the block count computed in `float` is the number of started blocks
  (`RsaBlocks.RoundTripExactly`): always below 2^22 bytes, but not for long messages (`RsaBlocks.LongMessageMiscounts`).
- Without synchronisation the Xor cipher gives the message back exactly when every byte meets the same key byte in the
  pieces sent and in the pieces received (`XorStream.UnsynchronisedRoundTripExactly`).
- A SOCKS5 greeting whose read ends before its list of methods does is answered with method 0x00, offered or not, because
  the zero-filled rest of the buffer is parsed too (`Socks5.AnswerIdent`).
- A packed SOCKS5 reply with a domain name lacks the low byte of its port (`Socks5.PackedDecodes`).

`dafny verify dfyconfig.toml` checks the whole project.

## Model

| member | source | states |
|---|---|---|
| CounterMode.CryptTwice | src/core/crypto/aes_crypto.cpp:84-130 | Encrypting and decrypting restart from the same counter, so applying the cipher twice under one key gives the message back |
| CounterMode.MasksWithKeyStream | src/core/crypto/aes_crypto.cpp:84-130 | A zero message yields the key stream from its start, and every message is masked with it byte by byte |
| Packet.LengthField | src/core/lss/lss_packet.h:29-34 | The two length bytes of a packet read back as the length given, cut to 16 bits |
| Packet.PackDataIsWellFormed | src/core/lss/session_local.cpp:703-730 | A packed data packet carries a true length field and decrypts to what was packed |
| Packet.DataOnTheWire | src/core/lss/lss_packet.h:107-130 | A data packet on the wire is version 0x00, type 0x06, the big-endian length and the ciphertext; exactly the types 0x06 and 0x17 are data |
| Receiver.CheckIsExact | src/core/lss/session.h:89-99 | For every count a session can hold, the integrity check computed in size_t and int gives the true number of missing bytes, or -1 below a header |
| Receiver.Receiver.constructor | src/core/lss/lss_packet.h:211-214 | A fresh packet buffer of the given size, waiting for its first read |
| Receiver.Receiver.OnRead | src/core/lss/session_local.cpp:222-236 | A completed read, fresh or of the rest, moves the padded buffer exactly as the real bytes move in the specification; at most 65535 data bytes are held |
| Receiver.Receiver.OnWritten | src/core/lss/session_local.cpp:347-367 | A completed write re-enters the handler on the remaining bytes, or starts a fresh read of 4096 bytes |
| Receiver.Receiver.Check | src/core/lss/session_server.cpp:163-189 | The rest of a packet is appended and the count corrected; every count passed to the check is at most the buffer size plus 4 and counts real stream bytes, and an incomplete packet is waited for as in the specification |
| Receiver.Receiver.Handle | src/core/lss/session_server.cpp:268-371 | Once the session relays, the outcome of every entry is that of the specification |
| Receiver.Receiver.WaitForRest | src/core/lss/session_local.cpp:392-428 | The buffer is trimmed to the real bytes and exactly the missing ones are asked for; the branch called impossible is unreachable |
| Receiver.Receiver.Forward | src/core/lss/session_server.cpp:336-371 | One packet is decrypted within bounds, cut off and forwarded, and 1 to 3 leftover bytes are counted as lost |
| Receiver.Receiver.CutLss | src/core/lss/session.h:116-140 | The buffer becomes the packet that starts at the given position, unless its header is incomplete, when nothing changes |
| Receiver.Receiver.OnRequestRead | src/core/lss/session_server.cpp:321-335 | Before the reply a whole packet gives its plaintext and the number of bytes behind it, and nothing is cut off or forwarded |
| Receiver.Receive | src/core/lss/session_local.cpp:222-434 | The receiver object driven through any uncut run over any packets has handed over the plaintexts of the first packets, and of all of them when the run has finished |
| Reassembly.KeepsStreamExactly | src/core/lss/session.h:117-140 | In any run over any packets, no byte was lost and the session still runs if and only if no read ended inside a 4-byte header |
| Reassembly.ForwardsWholePackets | src/core/lss/session_local.cpp:321-367 | At every moment of such a run the forwarded bytes are the plaintexts of the first packets, in order, and held plus unread bytes are the remaining packets |
| Reassembly.FinishedRunForwardsAll | src/core/lss/session_server.cpp:268-371 | A run that cannot continue has forwarded the plaintext of every packet |
| Reassembly.RunsAreBounded | src/core/lss/session_local.cpp:340-427 | Continuation reads and re-entries lower one measure, so every run over every stream ends |
| Reassembly.TunnelIsTransparent | src/core/lss/session_server.cpp:756-775 | What the server read from the remote side and packed in any pieces comes out unchanged on the local side |
| Reassembly.WholeReadsFinish | src/core/lss/session_local.cpp:321-367 | For every list of data packets and every first buffer there is a run that cuts no header and ends with all of it forwarded |
| Reassembly.StopsAtForeignPacket | src/core/lss/session_local.cpp:376-381 | Over packets of any types, an uncut run that has finished has forwarded the data packets before the first packet of another type, and has stopped exactly when there is one |
| Uplink.NothingBehindRequestLost | src/core/lss/session_server.cpp:321-335 | When the request has been read, all packets behind it are still unread exactly when nothing was dropped, and that is exactly when no read ran over the end of the request packet |
| Uplink.KeepsAllExactly | src/core/lss/session_server.cpp:1436-1454 | For a CONNECT request answered with 0x00, at any moment outside a write, nothing was lost and the session goes on if and only if no read ended inside a header and none ran over the end of the request packet |
| Uplink.DeliversBehindRequest | src/core/lss/session_server.cpp:336-371 | In that case a finished run has given the request to the handlers and the plaintext of every packet behind it to the remote side |
| Uplink.PipelinedPacketsAreLost | src/core/lss/session_server.cpp:321-335 | All packets that arrive in the same read as the request are lost, and the session waits for more |
| Requests.ConnectExactly | src/core/lss/session_server.cpp:1058-1062 | A plaintext is taken as a CONNECT request exactly when it begins with VER 0x05, CMD 0x01, RSV 0x00, an address and a port |
| Requests.OtherCommands | src/core/lss/session_server.cpp:1058-1075 | A plaintext that begins with a BIND or UDP request is none |
| Requests.RequestDecides | src/core/lss/session_server.cpp:321-335 | For packets of any types and any uncut reads: while the first packet is incomplete the session still reads; then it answers it, knowing its whole plaintext, exactly when it is data and a CONNECT request, and has ended otherwise |
| Requests.ConnectLeadsToRelay | src/core/lss/session_server.cpp:1436-1454 | A read of exactly the first packet, laid out as a CONNECT request for any address and port, leads to the answer with nothing dropped; 0x00 leads on to the relay, any other reply to the end |
| Requests.ReadFirst | src/core/lss/session_server.cpp:268-335 | One read of exactly the first packet, well formed or not data, is answered exactly when it asks for a connection, and ends the session otherwise |
| Requests.WholeRunFinishes | src/core/lss/session_server.cpp:268-371 | For every CONNECT request and every list of packets behind it there is a run that reads it, is answered with 0x00, cuts no header, reads nothing over its end, and has forwarded everything behind it |
| ServerUplink.ServerUplink.OnRead | src/core/lss/session_server.cpp:159-371 | The read handler's effect on the buffer and the state, before and after the reply |
| ServerUplink.RunUplink | src/core/lss/session_server.cpp:159-371 | The object driven through any such run ends in the specified state, with the request taken and everything behind it handed to the remote side |
| Handshake.HelloReplyFields | src/core/lss/session_local.cpp:740-747 | The key size and public key unpacked from a hello reply are those the server packed |
| Handshake.ExchangeRequestOpens | src/core/lss/session_server.cpp:952-965 | The server's decryption of an exchange request is the local side's key followed by its random string |
| Handshake.ExchangeReplyOpens | src/core/lss/session_server.cpp:882-904 | The local side's decryption of an exchange reply is the server's data key followed by the echoed random string |
| Handshake.OnTheWire | src/core/lss/lss_packet.h:107-130 | The bytes of the packets of the handshake: types 0x00 to 0x04 and 0xff, big-endian lengths, key size before public key, and 42 encrypted bytes in the exchange reply |
| Handshake.Agreement | src/core/lss/session_local.cpp:280-307 | In every run over FIFO channels with any cuts, a local side in status_data has its own random string echoed, an accepted key, and the same 32-byte data key as the server |
| Handshake.Completes | src/core/lss/session_server.cpp:192-267 | A run that cannot go on has connected both sides under one key, with nothing left in the channels, exactly when the server knows the key and no read cut a header; otherwise the local side has cancelled, and so has the server if no header was cut |
| Handshake.StatusesAdvance | src/core/lss/session.h:31-37 | Along every run both statuses only move forward |
| HandshakeProgress.HandshakesAreBounded | src/core/lss/session_local.cpp:255-320 | Every handshake ends: no run has more steps than three packets of the largest size have bytes, and five |
| HandshakeProgress.HandshakeHappens | src/core/lss/session_server.cpp:191-267 | For every key the server knows there is a handshake that brings both sides to status_data under one data key |
| AnyPeer.DataExactly | src/core/lss/session_local.cpp:280-307 | Whatever is read, one read takes the local session to status_data exactly when it is in status_auth and has read a whole exchange reply that decrypts, behind 32 bytes, to the random string it holds |
| AnyPeer.EchoDecides | src/core/lss/session_local.cpp:287-292 | A whole exchange reply with the right echo gives its key; with any other the session is cancelled and the status unchanged; nothing is written in either case |
| AnyPeer.LocalReadsExactly | src/core/lss/session_local.cpp:255-434 | Before status_data one read of any bytes makes the local session write exactly in answer to a whole hello reply, wait for more exactly while it has a header and no whole packet, and cancel for everything else but the right echo |
| AnyPeer.DataMeansEcho | src/core/lss/session_local.cpp:255-307 | Over every run in which the channel brings any bytes: a local session in status_data answered a hello reply, drew a random string then, and later read a whole exchange reply that decrypts to its data key and that very string |
| AnyPeer.WrongEchoEndsRun | src/core/lss/session_local.cpp:287-292 | A run in which such a reply came with another string ends there, cancelled and not in status_data |
| AnyPeer.LocalAdvances | src/core/lss/session.h:31-37 | Whatever arrives, the status of the local session only moves forward |
| AnyPeer.KeyDecides | src/core/lss/session_server.cpp:211-267 | A whole exchange request with a known key is accepted and answered with its own encryption of the new data key and the random string; with an unknown one the denial is sent, the session is cancelled and nothing else changes |
| AnyPeer.ServerAnswersExactly | src/core/lss/session_server.cpp:191-267 | What the server writes for any bytes read in the handshake: the bad packet exactly for less than a header or a hello request with data, the denial exactly for an unknown key, the two replies exactly for a greeting and a known key, and nothing otherwise |
| AnyPeer.AcceptedMeansKnownKey | src/core/lss/session_server.cpp:191-267 | Over every run in which the channel brings any bytes: a server session that accepted or is in status_data was greeted and later read a whole exchange request that opens with a known key |
| AnyPeer.ServerAdvances | src/core/lss/session.h:31-37 | Whatever arrives, the status of the server session only moves forward |
| Sessions.LocalSession.RightRead | src/core/lss/session_local.cpp:255-320 | The read handler's effect on the local session before status_data, for every packet type and status |
| Sessions.ServerSession.LeftRead | src/core/lss/session_server.cpp:191-267 | The read handler's effect on the server session before status_data, for every packet type and status |
| Sessions.RunHandshake | src/core/lss/session_local.cpp:256-307 | Two session objects driven over two byte channels end in the state the handshake prescribes, and their fields agree: echoed random string, accepted key and common data key whenever the local status is status_data, which a run that cannot go on reaches exactly when the key is known and no header was cut |
| Tunnel.BlockSuiteMatches | src/core/lss/session_local.cpp:687-696 | The handshake's assumption on RSA holds of the block-splitting cipher with a key of whole bytes |
| Tunnel.EndToEnd | src/core/lss/session_local.cpp:789-809 | After any handshake that reached status_data, under the two sessions' own keys: what the server packs reaches the client unchanged, the address laid out in the client's CONNECT request reaches the server's resolver, and what the local side packs behind the request reaches the remote side unchanged |
| Tunnel.EndToEndHappens | src/core/lss/session_local.cpp:789-809 | Behind every such handshake, for all packets in both directions whose first upward one begins with a CONNECT request, there are runs as EndToEnd speaks of |
| Tunnel.TunnelHappens | src/core/lss/session_server.cpp:191-371 | For every key the server knows, from the connected sockets on, some handshake and some relay runs behind it end with everything delivered both ways and the request at the resolver |
| Relay.EndpointWalk | src/core/lss/session_server.cpp:1204-1328 | Endpoints are tried in order, each at most once; until the reply exactly one operation is pending, and after one completion for the name and one for each endpoint tried exactly one reply is sent, 0x00 with state CONNECTED exactly when some endpoint accepts, and then the first accepting one is in use |
| Relay.WalkProgress | src/core/lss/session_server.cpp:1271-1328 | In every run, failing or not, each completion of the walk tries one more endpoint or sends a reply, never both and never neither |
| Overlaps.OneOperationPerDirection | src/core/lss/session_server.cpp:1411-1456 | In every intact run of a connected session each direction has exactly one operation pending, so two writes never overlap on a socket, and before that there is at most one operation at all |
| Overlaps.OverlapsExactly | src/core/lss/session_server.cpp:501-507 | Whatever the next step of such a run, two writes are on the left socket exactly when a write to the local side is under way and right_write_handler fails or a fresh left read returns less than a header; the right socket never has two |
| Overlaps.OverlapsHappen | src/core/lss/session_server.cpp:747-753 | Both overlaps occur: with a short read right after the reply, and with a failing write to the remote side one packet later |
| Overlaps.NeverMoreThanTwo | src/core/lss/session_server.cpp:756-830 | Over all runs, whatever fails, whatever is received and whichever handlers still run after a cancel, the left socket never has more than two writes under way and the right socket never more than one |
| LocalRelay.LocalOneOperationPerDirection | src/core/lss/session_local.cpp:469-665 | From the end of the exchange on, in every run with any failures and any handlers that still run after a cancel, the local side never has two writes on one socket; in intact runs each direction has exactly one operation pending once the method is settled |
| Causes.LocalOperationsBalance | src/core/lss/session_local.cpp:469-665 | Over every run, failures included, every operation of the local session that is pending or has ended was issued once, behind one of the events listed for it, and every such event has issued it |
| Causes.OperationsBalance | src/core/lss/session_server.cpp:268-830 | The same for the server session: one name lookup for each request found, one connection attempt for each endpoint in turn, one reply for each success, refusal or end of the list, one last packet for each bad request, short read or failed relay operation |
| Causes.OpensWithMessage | src/core/lss/session_server.cpp:321-335 | Over every run socks5_state leaves its first value with the first packet of data, request or not, and not before |
| Sessions.ServerRelay.Fire | src/core/lss/session_server.cpp:609-830 | Which operations the handler of a completed or failed operation issues, and what it does to state and reply |
| Sessions.RunRelay | src/core/lss/session_server.cpp:1204-1456 | The server object driven through any run keeps the bounds on writes under way and, while the run is intact, answers the request exactly once with the verdict of the walk |
| PosixPath.IncrementFollowsWalk | src/core/boost_build/boost_1_57_0__libs__filesystem__src__path.cpp:689-766 | begin() and operator++ visit the elements given by the path's own structure, at strictly increasing positions, and then end() |
| PosixPath.DecrementUndoesIncrement | src/core/boost_build/boost_1_57_0__libs__filesystem__src__path.cpp:768-801 | For every path and every non-end iterator, forward and back restores position and element if and only if it is not the first place of // or of a path with three or more leading separators, where it ends up at position 0 |
| PathParts.ParentAndFilenameKeepElements | src/core/boost_build/boost_1_57_0__libs__filesystem__src__path.cpp:324-362 | For every path parent_path() / filename() iterates to the same elements if and only if its last name holds no NUL |
| PathParts.ElementsCarryText | src/core/boost_build/boost_1_57_0__libs__filesystem__src__path.cpp:709-766 | The elements carry the path's non-separator characters in order, and one more dot exactly when it ends in a separator that is no root directory |
| PathParts.AppendAddsElements | src/core/boost_build/boost_1_57_0__libs__filesystem__src__path.cpp:141-159 | For every path that holds a name, with any trailing separators, and every nonempty right side, relative or rooted, operator/= puts the elements of the right side without its leading separators behind those of the path up to that name; a network name gets its root directory, and separators alone read as a dot |
| PathObjects.ScanFirstElement | src/core/boost_build/boost_1_57_0__libs__filesystem__src__path.cpp:572-632 | The scanning loops find the first element |
| PathObjects.ScanRootSeparator | src/core/boost_build/boost_1_57_0__libs__filesystem__src__path.cpp:465-490 | A separator is a root directory if its group starts the path or follows a network name |
| PathObjects.ScanParentPathEnd | src/core/boost_build/boost_1_57_0__libs__filesystem__src__path.cpp:324-343 | Where the parent path ends |
| PathObjects.PathIterator.constructor | src/core/boost_build/boost_1_57_0__libs__filesystem__src__path.cpp:689-699 | The iterator stands at begin() |
| PathObjects.PathIterator.Increment | src/core/boost_build/boost_1_57_0__libs__filesystem__src__path.cpp:709-766 | The in-place loop computes the incremented iterator |
| PathObjects.PathIterator.Decrement | src/core/boost_build/boost_1_57_0__libs__filesystem__src__path.cpp:768-801 | The in-place loop computes the decremented iterator |
| PathObjects.LexCompare | src/core/boost_build/boost_1_57_0__libs__filesystem__src__path.cpp:643-658 | Comparing two paths walks both iterators and yields the order of their element sequences |
| PathObjects.OrderIsExact | src/core/boost_build/boost_1_57_0__libs__filesystem__src__path.cpp:182-185 | Two paths compare equal exactly when their elements are equal, and swapping them negates the result |
| PathObjects.OrderIsFirstDifference | src/core/boost_build/boost_1_57_0__libs__filesystem__src__path.cpp:643-658 | A path comes first exactly when it runs out of equal elements first, or has the smaller one where they first differ |
| PathObjects.LessIsFirstDifference | src/core/boost_build/boost_1_57_0__libs__filesystem__src__path.cpp:182-185 | An element is smaller exactly when it is a proper prefix or has the smaller character where they first differ |
| PathObjects.Path.AppendPath | src/core/boost_build/boost_1_57_0__libs__filesystem__src__path.cpp:141-159 | Behind the old path stands the right side, whatever it begins with, with one separator between them exactly when both have text and neither brings one, also when a path is appended to itself |
| PathObjects.Path.AppendSeparatorIfNeeded | src/core/boost_build/boost_1_57_0__libs__filesystem__src__path.cpp:214-227 | Afterwards any name can be written straight behind the path with the effect of operator/=; an empty path stays empty and any other ends in a separator |
| Store.NoLostWakeup | src/core/store/store.h:115-160 | In every reachable state, while a consumer sleeps the woken consumers and the thread at work number at least the stored items, dually for producers and free slots, and the size never exceeds the capacity |
| Store.NoDeadlock | src/core/store/store.h:115-160 | When every thread is outside or asleep, sleeping consumers mean an empty store and sleeping producers a full one; with a positive capacity the two kinds never sleep together |
| Store.ZeroCapacityDeadlocks | src/core/store/store.h:189-191 | With capacity 0 a producer and a consumer end up asleep together |
| Store.Conservation | src/core/store/store.h:115-160 | Over every interleaving and container, pushed items equal popped plus stored items |
| Store.FifoOrder | src/core/store/store.h:112-160 | Over a FIFO container the popped items followed by the stored ones are the pushed ones, in lock order |
| Store.PriorityOrder | src/core/log/logstore_priority.h:32-48 | Over the log queue, within every priority factor popped items followed by stored ones are the pushed ones, in lock order |
| StoreCalls.CallsAreServed | src/core/store/store.h:115-160 | Over every interleaving with any spurious wakeups, each call has been served exactly once or its thread is still inside: pop() calls equal items taken plus such threads, and for every item push() calls equal copies put in plus such threads |
| StoreCalls.SomeoneCanWork | src/core/store/store.h:115-160 | In every reachable state in which some thread is neither outside nor asleep, some thread can take its next step |
| StoreCalls.WorkEnds | src/core/store/store.h:115-160 | Without new calls and spurious wakeups every interleaving comes to rest after at most six steps for each thread |
| PriorityQueue.TopIsFirstOfLowestRank | src/core/log/priority_queue.h:257-273 | top() picks the first item of the best factor present |
| PriorityQueue.DrainIsStablePartition | src/core/log/priority_queue.h:257-284 | Draining yields all items of factor 0 in push order, then factor 1, and so on, then the rest in push order |
| PriorityQueue.FifoWithinRank | src/core/log/priority_queue.h:253-284 | With pushes and pops in any order, items of one factor leave in push order |
| PriorityQueue.UnlistedWaits | src/core/log/priority_queue.h:261-272 | No item without a listed factor leaves while one with a listed factor is present |
| PriorityQueue.PriorityQueue.constructor | src/core/log/priority_queue.h:231-242 | An empty queue with distinct factors |
| PriorityQueue.PriorityQueue.Push | src/core/log/priority_queue.h:253-255 | The item goes to the back of the list |
| PriorityQueue.PriorityQueue.Top | src/core/log/priority_queue.h:257-273 | The nested loops find the top item and remember its place |
| PriorityQueue.PriorityQueue.Pop | src/core/log/priority_queue.h:282-284 | The remembered item leaves the list |
| StreamCipher.AnyChunking | src/core/crypto/rc4.c:80-101 | For any cipher that masks by position, encrypting in any chunks and decrypting in any others gives the stream back |
| Rc4.RoundTrip | src/core/crypto/rc4_crypto.cpp:11-41 | Encrypted in any chunks with one state and decrypted in any others with its twin, a message comes back |
| Rc4.TableIsPermutation | src/core/crypto/rc4.c:55-101 | After rc4_init with any nonempty key and any bytes encrypted since, every byte value stands exactly once in the table |
| Rc4.EveryKeyByteMatters | src/core/crypto/rc4.c:66-71 | Keys that agree on the bytes of the first n rounds have the same index after round n exactly when they agree on its byte too |
| Rc4.StillKeyStream | src/core/crypto/rc4.c:55-101 | Under the key 0, 0, 255, 254, ... the table is the identity after rc4_init and the key stream starts with 2, 5, 7 |
| Rc4.SecondKeyByte | src/core/crypto/rc4.c:88-100 | From every table with 0 at place 2 and no 2 at place 1 the second key byte is 0 |
| Rc4.Rc4State.constructor | src/core/crypto/rc4.c:55-72 | The in-place key mixing computes the initial state |
| Rc4.Rc4State.SwapBytes | src/core/crypto/rc4.c:41-49 | Two table entries change places and the others stay |
| Rc4.Rc4State.CryptBuffer | src/core/crypto/rc4.c:80-101 | The output is the masked input and the state has advanced, also when input and output are the same buffer |
| Rc4.Rc4.Encrypt | src/core/crypto/rc4_crypto.cpp:28-34 | Encryption advances its own state and leaves the decryption state alone |
| Rc4.Rc4.Decrypt | src/core/crypto/rc4_crypto.cpp:35-41 | Decryption advances its own state and leaves the encryption state alone |
| XorStream.RoundTrip | src/core/crypto/xor_crypto.cpp:34-52 | In synchronised mode a message encrypted in any chunks and decrypted in any others comes back |
| XorStream.UnsynchronisedRoundTripExactly | src/core/crypto/xor_crypto.cpp:44-52 | Without synchronisation, a message decrypted in any other pieces comes back if and only if every byte meets the same key byte in both cuttings |
| XorStream.UnsynchronisedSamePieces | src/core/crypto/xor_crypto.cpp:44-52 | Without synchronisation the same pieces decrypt to what was sent |
| XorStream.UnsynchronisedWholeKeys | src/core/crypto/xor_crypto.cpp:48 | Pieces that are whole numbers of keys long, except the last, are such a case |
| XorStream.UnsynchronisedCanFail | src/core/crypto/xor_crypto.cpp:50 | Two zero bytes sent at once under a key of two different bytes and received one by one do not come back |
| XorStream.Xor.XorEncrypt | src/core/crypto/xor_crypto.cpp:44-52 | The loop masks with the key repeated from the running position, which moves only in synchronised mode |
| RsaBlocks.CountIsExact | src/core/crypto/rsa_crypto.cpp:117-119 | For messages of any length and every rounding to nearest the blocks counted in float hold the message up to one block and a 2^22th part, and below 2^22 bytes the count is exact |
| RsaBlocks.LongMessageMiscounts | src/core/crypto/rsa_crypto.cpp:117-119 | A message of an odd number of blocks from 2^24 + 5 on, the last one not full, is given a wrong count by every rounding to nearest |
| RsaBlocks.Encrypt | src/core/crypto/rsa_crypto.cpp:110-140 | The loop encrypts a message of any length block by block, as many blocks as it counts, and reads past the end when it counts too many |
| RsaBlocks.Decrypt | src/core/crypto/rsa_crypto.cpp:146-177 | A missing private key, a ciphertext of illegal length, and a bad block are refused; otherwise the blocks' plaintexts are joined |
| RsaBlocks.RoundTrip | src/core/crypto/rsa_crypto.cpp:110-176 | With a key of whole bytes decrypt undoes encrypt for every message and any padding |
| RsaBlocks.DecryptsCovered | src/core/crypto/rsa_crypto.cpp:110-176 | For messages of any length, what decrypt gives back is what the counted blocks cover |
| RsaBlocks.RoundTripExactly | src/core/crypto/rsa_crypto.h:37-47 | For the listed key sizes and nonempty messages of any length decrypt undoes encrypt exactly when the size is divisible by 8 and the count is the number of started blocks, which it is below 2^22 bytes |
| RsaBlocks.CiphertextLength | src/core/crypto/rsa_crypto.cpp:110-140 | The ciphertext has one modulus length per counted block, and with 61140 bits decrypt refuses its length or its first block |
| RsaBlocks.CiphertextBlocks | src/core/crypto/rsa_crypto.cpp:110-140 | Below 2^22 bytes the ciphertext is n modulus lengths long, where n is the number of started pieces of keysize / 8 - 42 bytes |
| RsaBlocks.RefusesExactly | src/core/crypto/rsa_crypto.cpp:146-177 | For every ciphertext which refusal decrypt gives: no private key, a length that is no multiple of keysize / 8, or some whole block that does not decrypt |
| Socks5.ParsesCompleteRequest | src/core/lss/socks5_protocol.h:166-222 | Every request laid out as in section 4 of RFC 1928 parses to exactly its command, address and port, for all three address types and whatever follows it |
| Socks5.AcceptsOnlyRequests | src/core/lss/socks5_protocol.h:166-222 | Whatever parses starts with the layout of the parsed fields |
| Socks5.RefusesExactly | src/core/lss/socks5_protocol.h:166-222 | Another version is refused as such from 7 bytes on; a message is read past its end exactly when some continuation of it would parse |
| Socks5.Response.Pack | src/core/lss/socks5_protocol.h:272-348 | Filling the fixed array yields the packed reply, or the exception for an undefined reply code, address type or mismatched address |
| Socks5.PacksExactly | src/core/lss/socks5_protocol.h:272-348 | A reply packs exactly when its code is one of 0x00 to 0x08 and its address is of the stated type, and which exception is thrown otherwise |
| Socks5.PackedDecodes | src/core/lss/socks5_protocol.h:298-346 | Every reply with a code up to 0x08 and an address of the stated type packs; with an IPv4 or IPv6 address it decodes back to its fields, and the domain form lacks exactly its last byte |
| Socks5.ParsesIdentExactly | src/core/lss/socks5_protocol.h:71-82 | A greeting parses to a list of methods exactly when it has three bytes or more and starts with VER NMETHODS and that list |
| Socks5.RefusesIdentExactly | src/core/lss/socks5_protocol.h:71-82 | The same for a greeting |
| Socks5.PackIdent | src/core/lss/socks5_protocol.h:91-115 | Method 0x00 is chosen exactly when it was offered |
| Socks5.AnswerIdent | src/core/lss/session_local.cpp:469-523 | Whatever part of a greeting was read, the answer is 0x00 exactly when 0x00 is in the list of methods received or the read ended before the list did |

## Left out

- Sockets, asio, timers and the threads of io_service: an operation is pending and its handler fires; handlers of one session run one at a time.
- The internals of AES, RSA, MD5 and Base64: functions with inverse and length laws.
- SOCKS commands other than CONNECT: the handling of UDP and BIND is marked TODO in the source. Packets of type zipdata are treated as data, as the code does.
- PathParts.AppendAddsElements: not for a path without any name, where the right side is written behind the separators and the whole is read anew.
- Path normalisation, extensions, locale conversion and the Windows branches of path.cpp.
- The lock-free specialisations of Store, and reserve(): the capacity of a store is fixed, because a change of capacity notifies nobody.
- Python glue, log formatting, configuration reading, program options and the keep-alive process.
- Timer expiry during the endpoint walk.
- Store.NoLostWakeup: push() and pop() are steps of a state machine over values, since blocking waits have no sequential form; the lock, the waits, the notifications and spurious wakeups are all separate steps.
- Sessions.LocalSession.RightRead: during the handshake the buffer is the bytes read so far; its zero padding is modelled in Receiver only.
- Handshake.Completes: extra bytes behind a handshake packet are ignored by the code and by the model; the two sides take turns, so there are none.
- RsaBlocks.Encrypt: a count that is too high reads behind the message, which is reported as PastEnd.
- RsaBlocks.CountIsExact: from 2^22 bytes on only the bound is stated; the theorems on the round trip take the count as it comes, and the float type is not modelled bit by bit.
- Socks5.ParsesCompleteRequest: a message shorter than its address type needs is reported as PastEnd, where the source reads on behind the given length.
