# redis-rust in Dafny

This is a model of the core of `redis-rust`, a small Redis-compatible key-value server with master→replica replication. The model covers:

- **The RESP wire codec of a `Connection`:**
  - the five response frames of `write_response`;
  - the array-of-bulk-strings request frame of `write_request`;
  - the two decoders, `read_request` and `read_response`;
  - the older copies of the writers in `response_handler.rs`, `response_writer.rs` and `request_writer.rs`, and the older chunk-based `read_response`.
- **Command parsing in `command.rs`:** `parse_command_array`, `parse_to_cmd` and `Command::new`.
- **The expiring store:**
  - `DataItem::expired_or_return`;
  - `InMemoryStorage`;
  - the `Core` get/set of the server.
- **The server in `redis_store.rs`:**
  - `Role` and `ReplicationConfig`, with their `Display`;
  - the per-command dispatch of `handle_connection` and its loop;
  - `replica_propagation`;
  - the `start_replicate` handshake and the replica loop;
  - the `EMPTY_RDB` snapshot.
- **`hex_to_bytes`**, which decodes that snapshot.

Everything is a pure function over immutable values:

- A decoder takes the bytes still unread on the connection. It returns what it read together with the bytes it left unread.
- A writer returns the bytes it puts on the wire.
- The server's handling of one command is a step from the store state to a new state plus an ordered list of writes. Each write names its connection by number.
- Text is `string`, one `char` per byte.
- A Rust call ends in one of three ways (`Base.Outcome`):
  - `Ok`: a value;
  - `Err`: an error passed on by `?`;
  - `Panic`: an `unwrap` of `None`/`Err`, an out-of-range index or slice, or an unsigned underflow.
- Time and external behaviour are parameters:
  - a `SystemTime` is a number of nanoseconds since the UNIX epoch;
  - "now" is a parameter;
  - the `Display` of the server's command type is a parameter `render`, because its source is not part of this model.

Modules, in the order of the program:

| module | file | models |
|---|---|---|
| `Base` | `base.dfy` | `Option`, `Outcome`, bytes, `u64`/`usize` limits, ASCII upper-casing |
| `Decimal` | `decimal.dfy` | `Display` and `str::parse` of unsigned integers |
| `Text` | `text.dfy` | `str::split`, the `read_line` of a buffered reader, counting characters |
| `Connection` | `connection.dfy` | `src/redis_store/connection.rs` |
| `Commands` | `commands.dfy` | `src/command.rs`, and `read_request` with that file's four-command `parse_to_cmd` as its command parser |
| `ResponseHandler` | `response_handler.dfy` | `src/redis_store/response_handler.rs` |
| `ResponseWriter` | `response_writer.dfy` | `src/redis_store/response_writer.rs` |
| `RequestWriter` | `request_writer.dfy` | `src/redis_store/request_writer.rs` |
| `DataItems` | `data_item.dfy` | `src/data_item.rs` |
| `Storage` | `in_memory_storage.dfy` | `src/storage/in_memory_storage.rs` |
| `Util` | `util.dfy` | `src/util.rs` and the `EMPTY_RDB` constant |
| `RedisStore` | `redis_store.dfy` | `src/redis_store.rs` |

Behaviour of the code worth knowing before reading the model:

- **Failed `read_request` in `handle_connection`.** The code calls `unwrap()` on it, so a malformed or unknown command ends the connection's thread with a panic. Redis itself answers an unknown command with an `-ERR unknown command` reply and keeps the connection open; this server does not. `RedisStore.Loop` ends in `Panicked`.
- **TTL propagation.** The client's `SET … PX` gives a TTL relative to now. The propagated `SET` carries the absolute deadline as epoch milliseconds instead, and the replica adds that value to `UNIX_EPOCH`, and the replica expires the key at the master's deadline rounded down to the millisecond, up to 1 ms before the master (`RedisStore.TtlRoundTrip`), as long as that deadline in milliseconds fits a `u64`. `RedisStore.SetStep` and `RedisStore.ReplicaStep` do the same.
- **`read_request` checks.**
  - It does not check that the count line starts with `*`.
  - It does not parse the element length lines.
  - It reads only one digit of the count.
  - `Connection.ReadRequest` models these as written (see Findings).
- **Errors from `parse_command_array`.** It does not reject an element position with another type prefix. It panics, and does not return an error, when the frame ends early.

## Model

| member | source | states |
|---|---|---|
| Commands.TakeElements | src/command.rs:27-31 | the element loop returns exactly `n` tokens; token `i` is the segment right after the `i`-th length line; the only error it returns is an integer-parse error |
| Commands.TakeElementsOk | src/command.rs:27-31 | the element loop succeeds if and only if there are `2n` segments and every length line parses as a `usize`; the declared length is never compared with the token |
| Commands.ParseCommandArray | src/command.rs:20-39 | the tokens returned are the `"\r\n"`-separated segments at positions 2, 4, 6, … of the frame; the count line after its `*` parses as a `usize` to exactly the number of tokens, and the vector reserved for them fits in an `isize` |
| Commands.ParseCommandArrayCapacity | src/command.rs:25-26 | a count whose vector of `&str` (16 bytes each) would exceed `isize::MAX` bytes panics with a capacity overflow before any element is read |
| Commands.ParseCommandArrayRejects | src/command.rs:23-38 | a frame is rejected as an invalid command if and only if it is empty or does not start with `*` |
| Commands.ParseFrame | src/command.rs:20-39 | round trip: the array frame of any tokens without line feeds parses back to those tokens, whatever follows the frame |
| Commands.ParseWriteRequest | src/command.rs:20-39 | round trip with the writer: the frame `write_request` builds from a text without line feeds parses back to the text's space-separated tokens |
| Commands.ParseIgnoresDeclaredLength | src/command.rs:29-30 | a one-element frame yields its token whatever `usize` length its length line declares |
| Commands.ParseToCmd | src/command.rs:41-58 | a successful parse has a first token; ECHO and GET take their argument from token 1, and SET takes its key and value from tokens 1 and 2 |
| Commands.ParseToCmdUnknown | src/command.rs:42-56 | a non-empty array is an "unknown command" error if and only if its upper-cased first token is none of PING, ECHO, SET and GET |
| Commands.ParseToCmdCaseInsensitive | src/command.rs:42 | the command word is matched regardless of letter case |
| Commands.SetTtlRule | src/command.rs:45-54 | SET never panics with three or more tokens; it has a TTL if and only if there are exactly five tokens and the fourth is `PX` in any case; the TTL is the fifth token as a `u64`; it is an error if and only if that token is not a `u64` |
| Commands.ParseToCmdToTokens | src/command.rs:41-58 | `parse_to_cmd` inverts the canonical token list of every command whose TTL fits a `u64` |
| Commands.NewOfFrame | src/command.rs:12-16 | `Command::new` of the frame of a command's tokens is that command |
| Commands.NewRejects | src/command.rs:12-16 | `Command::new` fails with "invalid command" exactly when the frame is empty or does not start with `*` |
| Commands.ReadCommandOfFrame | src/redis_store/connection.rs:92-117 | `read_request` as written, with the four-command parser of `command.rs`, reads a command's frame back as the command, counts all its bytes and leaves what follows unread |
| Commands.ReadCommandFixedOfFrame | src/redis_store/connection.rs:92-117 | the same round trip holds for `read_request` with the whole count parsed |
| Commands.ReadCommandTenTokens | src/redis_store/connection.rs:103-115 | as written, with the four-command parser of `command.rs`, a `SET` frame of ten tokens panics, because that parser gets the word alone (`Connection.ReadRequestWithTenTokens` shows what any parser gets); with the whole count parsed it is a `SET` of the second and third tokens |
| Connection.ReadRequestWithFrame | src/redis_store/connection.rs:92-117 | for any command parser, `read_request` as written hands it exactly the tokens of a frame of at most nine tokens and returns its command or its error, with all the frame's bytes counted and what follows left unread |
| Connection.ReadRequestWithTenTokens | src/redis_store/connection.rs:103-116 | for any command parser, a frame of ten tokens hands it the first token alone, and the other nine elements are left unread |
| Connection.ReadRequestFixedWithFrame | src/redis_store/connection.rs:92-117 | with the whole count parsed, any parser gets the whole token array of a frame of any size |
| Commands.NewEchoExample | src/main.rs:61-66 | `Command::new("*2\r\n$4\r\necho\r\n$3\r\nhey\r\n")` is `ECHO("hey")` |
| Connection.PutTokensAppends | src/redis_store/connection.rs:66-72 | the element loop of the array writer appends one `$<len>\r\n<token>\r\n` pair per token, in order |
| Connection.RespArrayIsWriteRequest | src/redis_store/connection.rs:60-73 | `write_response(RESPArray(s))` writes exactly the bytes of `write_request(s)` |
| Connection.WriteRequestSegments | src/redis_store/connection.rs:37-44 | split on `"\r\n"`, the request frame is the `*<n>` count line, then the `$<len>` line and the token for each space-separated token in order, and nothing after the last `"\r\n"` |
| Connection.EncodeResponseFraming | src/redis_store/connection.rs:46-90 | every response frame opens with its kind's type byte (`+`, `-`, `$` or `*`); every frame but the snapshot ends with `"\r\n"`; the snapshot ends with its payload, right after its length line |
| Connection.WriteRequestCount | src/redis_store/connection.rs:38-39 | the element count a request declares is the number of spaces in its text plus one |
| Connection.ReadElements | src/redis_store/connection.rs:105-112 | the element loop returns exactly `count` tokens or panics, never an error, and the bytes it counts plus the bytes it leaves are its input |
| Connection.ReadRequest | src/redis_store/connection.rs:103 | a request never yields more than nine tokens |
| Connection.ReadRequestCounts | src/redis_store/connection.rs:94-101 | the returned length plus the bytes left is the whole input, except for one skipped leading blank line, which is not counted |
| Connection.ReadFrameRoundTrip | src/redis_store/connection.rs:103-112 | a frame of at most nine tokens without line feeds reads back as its tokens, with all its bytes counted and what follows left unread |
| Connection.ReadRequestRoundTrip | src/redis_store/connection.rs:92-117 | round trip with `write_request` for any text without line feeds that has at most nine tokens |
| Connection.ReadRequestWritten | src/redis_store/connection.rs:103 | for a frame of any size, the decoder reads only the first `d` tokens, where `d` is the first digit of the count, and leaves the remaining elements unread |
| Connection.ReadRequestTenTokens | src/redis_store/connection.rs:103 | a frame of ten tokens reads back as its first token alone, and the other nine elements are left unread |
| Connection.ReadRequestFixedRoundTrip | src/redis_store/connection.rs:103-112 | the decoder with the whole count parsed reads every frame back whole, whatever its size |
| Connection.ReadRequestFixedAgrees | src/redis_store/connection.rs:103-112 | the corrected and the as-written decoders agree on every frame of at most nine tokens |
| Connection.ReadRequestSkipsBlankLine | src/redis_store/connection.rs:97-101 | one `"\r\n"` line before a request is skipped |
| Connection.ReadRequestTwoBlankLines | src/redis_store/connection.rs:97-103 | a second blank line is not skipped: the request then fails to parse its count |
| Connection.ReadRequestIgnoresMarker | src/redis_store/connection.rs:103 | the first character of the count line is never checked: any character other than a line break reads the same as `*` |
| Connection.ReadResponse | src/redis_store/connection.rs:119-147 | `read_response` either returns or panics; it never returns an error |
| Connection.ReadResponseSimple | src/redis_store/connection.rs:133 | round trip: a simple string or simple error without line feeds reads back as its text, and what follows is left unread |
| Connection.ReadResponseBulk | src/redis_store/connection.rs:134-139 | a bulk string reads back as exactly its content, and its closing `"\r\n"` is left unread |
| Connection.ReadResponseNullBulkPanics | src/redis_store/connection.rs:135 | the null bulk string `$-1` cannot be read back: `-1` is not a `usize` |
| Connection.ReadResponseRdb | src/redis_store/connection.rs:134-139 | an RDB payload reads back byte for byte, and nothing after it is consumed |
| Connection.ReadResponseOtherHeader | src/redis_store/connection.rs:140-143 | any header other than `+`, `-` and `$` gives `None` after consuming its line |
| Connection.ReadResponseSkipsBlankLine | src/redis_store/connection.rs:123-126 | one `"\r\n"` line before a response is skipped |
| Decimal.ParseNatToString | src/command.rs:25 | parsing the decimal text of a number gives the number back exactly when it fits the target integer type |
| Decimal.FirstDigitBound | src/redis_store/connection.rs:103 | the first digit of a count is the count itself below ten, and strictly less than the count from ten on |
| DataItems.New | src/data_item.rs:9-11 | the item holds the given value and deadline unchanged |
| DataItems.ExpiredOrReturn | src/data_item.rs:12-19 | the value is returned if and only if the item is alive (no deadline, or a deadline not before now), and it is the stored value |
| DataItems.NoTtlNeverExpires | src/data_item.rs:12-18 | without a deadline the value is returned at every instant |
| DataItems.ExpiresStrictlyAfterDeadline | src/data_item.rs:14 | at the deadline the value is still returned; one nanosecond later it is not |
| DataItems.ExpiryMonotone | src/data_item.rs:13-16 | once expired, always expired; an item alive later was alive earlier with the same value |
| Storage.Insert | src/storage/in_memory_storage.rs:18 | the key maps to a fresh item with the given value and deadline; the other keys keep their items; no key disappears |
| Storage.Lookup | src/storage/in_memory_storage.rs:21-26 | a value comes back if and only if the key is present and its item is alive, and it is the stored value |
| Storage.NewStorage | src/storage/in_memory_storage.rs:11-15 | a new storage returns nothing for any key at any instant |
| Storage.Set | src/storage/in_memory_storage.rs:17-19 | after `set` the keys are the old keys plus the one set |
| Storage.Get | src/storage/in_memory_storage.rs:21-26 | a returned value is the stored one; a missing key gives nothing |
| Storage.GetAfterSet | src/storage/in_memory_storage.rs:17-24 | a value set without a TTL is read back at every instant |
| Storage.GetAfterSetWithTtl | src/storage/in_memory_storage.rs:17-24 | a value set with deadline `t` is read back exactly while `now <= t` |
| Storage.SetOverwrites | src/storage/in_memory_storage.rs:18 | a second `set` of a key replaces both value and deadline and leaves no trace of the first |
| Storage.SetFrame | src/storage/in_memory_storage.rs:17-19 | `set` of one key changes no other key's `get`, at any instant |
| Storage.ExpiredEntryKept | src/storage/in_memory_storage.rs:21-26 | an expired entry reads as absent but stays in the map with its value and deadline |
| Util.HexValue | src/util.rs:3 | a character's hexadecimal digit value, when it has one, is below 16 |
| Util.HexDigits | src/util.rs:3 | non-hex characters are skipped: there are never more digits than characters, and each is below 16 |
| Util.PairUp | src/util.rs:4-6 | digits are paired into `⌊digits/2⌋` bytes, so a trailing unpaired digit is dropped |
| Util.PairUpAt | src/util.rs:4-5 | byte `i` is `16·d[2i] + d[2i+1]`, with no truncation by the `u8` cast |
| Util.HexToBytes | src/util.rs:1-12 | as written: the result is `None` if and only if the number of decoded bytes is odd; otherwise it is the paired digits |
| Util.HexToBytesChecked | src/util.rs:7-11 | as intended: `None` if and only if the number of hex digits is odd; otherwise it is the `digits/2` paired bytes |
| Util.HexRoundTrip | src/util.rs:1-12 | the corrected decoder inverts hexadecimal encoding for every byte sequence |
| Util.HexToBytesAsWritten | src/util.rs:7-11 | as written, decoding the encoding of `n` bytes gives them back if `n` is even and fails if it is odd |
| Util.HexToBytesOneByte | src/util.rs:7-11 | `"ab"` is refused as written and decodes to one byte when corrected |
| Util.HexToBytesFiveDigits | src/util.rs:7-11 | `"abcde"` decodes as written to two bytes, dropping a digit, and is refused when corrected |
| Util.EmptyRdbAllHex | src/redis_store.rs:23 | `EMPTY_RDB` is 176 characters, all hexadecimal digits |
| Util.EmptyRdbDecodes | src/redis_store.rs:193 | `hex_to_bytes(EMPTY_RDB)` is `Some` of 88 bytes, so its `unwrap` cannot panic, and both decoders agree on it |
| Util.EmptyRdbBytesDecoded | src/redis_store.rs:193 | the snapshot sent to a replica is exactly what `hex_to_bytes` makes of `EMPTY_RDB` |
| ResponseHandler.WriteResponse | src/redis_store/response_handler.rs:16-45 | every frame is at least three bytes long |
| ResponseHandler.WriteResponseAgrees | src/redis_store/response_handler.rs:16-45 | this writer produces the same bytes as `connection.rs` for every response the two share |
| ResponseHandler.ReadResponse | src/redis_store/response_handler.rs:47-63 | the result is `None` if and only if the read fails; it panics if and only if the chunk is shorter than three bytes; otherwise the result is the chunk without its first byte and its last two bytes, whatever the header |
| ResponseHandler.Chunk | src/redis_store/response_handler.rs:48-50 | one read takes a prefix of at most 512 bytes, and everything when less is available |
| ResponseHandler.ReadSimpleResponse | src/redis_store/response_handler.rs:51-57 | round trip for a simple string or error that fits the buffer |
| ResponseHandler.ReadBulkResponse | src/redis_store/response_handler.rs:53-56 | a bulk string reads back as its length digits, `"\r\n"` and the content, not as the content alone |
| ResponseHandler.ReadLongResponse | src/redis_store/response_handler.rs:48-50 | a response longer than the 512-byte buffer is cut to its first 512 bytes before the three are dropped |
| ResponseWriter.Response | src/redis_store/response_writer.rs:10-30 | the writer panics if and only if a simple kind is given no content; it never returns an error |
| ResponseWriter.ResponseAgrees | src/redis_store/response_writer.rs:10-30 | whenever it does not panic, this writer produces the same bytes as `connection.rs` for the same response |
| RequestWriter.Request | src/redis_store/request_writer.rs:3-11 | the frame built token by token is byte-identical to `write_request` of `connection.rs`, and it declares the space count plus one elements |
| RedisStore.RoleName | src/redis_store.rs:31-38 | a role renders as `master` or `slave` |
| RedisStore.RoleNameInjective | src/redis_store.rs:31-38 | the two roles render differently |
| RedisStore.NewConfig | src/redis_store.rs:47-53 | a new configuration has the given role, the fixed 40-character replication id and offset 0 |
| RedisStore.ConfigTextLines | src/redis_store.rs:56-63 | the configuration text splits on `"\r\n"` into exactly the role, id and offset lines, in that order |
| RedisStore.EpochMillis | src/redis_store.rs:220-224 | the propagated TTL is always a `u64` |
| RedisStore.NewStore | src/redis_store.rs:102-108 | a new server has an empty store, no replicas, and a new configuration for its role |
| RedisStore.CoreSet | src/redis_store.rs:79-84 | `set` leaves the replicas, configuration and address unchanged |
| RedisStore.CoreIsInMemoryStorage | src/redis_store.rs:79-92 | `Core` get/set behave exactly as `InMemoryStorage` get/set on the same map |
| RedisStore.CoreGetAfterSet | src/redis_store.rs:79-92 | after `set(k, v, d)`, `get(k)` is `v` while the deadline has not passed and nothing after it; every other key reads as before |
| RedisStore.CoreGet | src/redis_store.rs:86-92 | `get(k)` is present exactly when `k` is stored and its deadline has not passed, and then it is the stored value |
| RedisStore.Broadcast | src/redis_store.rs:123-126 | there is one write per replica |
| RedisStore.BroadcastWrites | src/redis_store.rs:123-126 | write `i` goes to replica `i` and carries the frame |
| RedisStore.ReplicaPropagation | src/redis_store.rs:120-128 | a replica writes nothing; a master writes once per attached replica |
| RedisStore.PropagationWrites | src/redis_store.rs:120-128 | a master sends the rendered command as a request frame to every replica, in attach order |
| RedisStore.HandleCommand | src/redis_store.rs:178-234 | the loop goes on if and only if the command is not PSYNC; only PSYNC changes the replica list, by appending this connection; only SET and PSYNC change the state, and the configuration never changes; every command first answers on its own connection |
| RedisStore.PsyncStep | src/redis_store.rs:188-199 | PSYNC writes two frames to this connection, appends the connection to the replicas and leaves the loop |
| RedisStore.SetStep | src/redis_store.rs:209-226 | SET stores the value with its deadline from now, replies `+OK` first, and propagates the command with the deadline as epoch milliseconds |
| RedisStore.SimpleReplies | src/redis_store.rs:179-187 | PING gets `+PONG`, ECHO x gets `+x`, REPLCONF gets `+OK`, each as the only write |
| RedisStore.InfoReply | src/redis_store.rs:201-208 | INFO answers the configuration as a bulk string if and only if the section is `replication`, and `-ERR unknown section` if and only if it is not |
| RedisStore.GetReply | src/redis_store.rs:227-233 | GET answers the live stored value as a bulk string, and `$-1` when the key is absent or expired |
| RedisStore.PsyncOrder | src/redis_store.rs:188-199 | PSYNC writes `+FULLRESYNC <id> 0`, then the 88-byte snapshot as `$88\r\n…` with no trailing CRLF; the connection becomes the last replica, the data is untouched, and the loop ends |
| RedisStore.SetOrder | src/redis_store.rs:209-226 | SET stores first and replies `+OK` first; a replica then writes nothing more; a master then writes the propagated SET to each replica in attach order, and nothing else |
| RedisStore.TtlRoundTrip | src/redis_store.rs:162-166 | the replica's deadline is the master's rounded down to the millisecond: never later, and less than a millisecond earlier |
| RedisStore.ReplicaStep | src/redis_store.rs:157-171 | only SET changes the replica's state, only REPLCONF writes anything back, and replicas and configuration never change |
| RedisStore.ReplicaAck | src/redis_store.rs:158-160 | the answer to REPLCONF is the request frame of `REPLCONF ACK 0` |
| RedisStore.ReplicatedSetAgrees | src/redis_store.rs:161-167 | after a replicated SET with a TTL, a replica that has the value has the master's value; master and replica agree at every instant except the last partial millisecond before the master's deadline |
| RedisStore.ReplicatedSetNoTtl | src/redis_store.rs:161-167 | after a replicated SET without a TTL, master and replica both hold the value forever |
| RedisStore.Loop | src/redis_store.rs:176-235 | the loop consumes no more requests than there are, and it consumes all of them when it is still open at the end |
| RedisStore.HandleCommandHandsOver | src/redis_store.rs:188-199 | the command handler hands the connection over on PSYNC and only then |
| RedisStore.ServeStopsAtPsync | src/redis_store.rs:176-199 | the loop ends right after the first PSYNC and reads nothing after it; the connection is then the last replica |
| RedisStore.ServeNoPsync | src/redis_store.rs:176-235 | without PSYNC or a failed read, every request is consumed, the session stays open and the replica list is unchanged |
| RedisStore.ServeFailedRead | src/redis_store.rs:175-178 | a failed read panics right there: the requests before it are handled, nothing after it is read, the connection is not a replica, and when the first read fails nothing is written and the store is untouched |
| RedisStore.Port | src/redis_store.rs:137 | taking the port either succeeds or panics (no `:` in the address) |
| RedisStore.Expect | src/redis_store.rs:134 | a handshake read either succeeds or panics, never returns an error |
| RedisStore.StartReplicate | src/redis_store.rs:131-151 | the handshake either completes or panics |
| RedisStore.PortOf | src/redis_store.rs:137 | for `host:rest` with a host free of `:`, the port is the text of `rest` up to its next `:`, and all of `rest` when it has none |
| RedisStore.PortPanics | src/redis_store.rs:137 | taking the port panics exactly when the address has no `:` |
| RedisStore.ExpectMismatch | src/redis_store.rs:134 | a simple reply passes the `assert_eq!` exactly when its text is the expected one, and panics otherwise; a simple error with the expected text passes too |
| RedisStore.StartReplicateNoPong | src/redis_store.rs:133-134 | the handshake panics when `PING` is answered with anything but `PONG` |
| RedisStore.StartReplicateNoPort | src/redis_store.rs:134-137 | after `PONG`, the handshake panics when the address has no port |
| RedisStore.StartReplicateFirstNotOk | src/redis_store.rs:137-139 | the handshake panics when `REPLCONF listening-port` is answered with anything but `OK` |
| RedisStore.StartReplicateSecondNotOk | src/redis_store.rs:142-143 | the handshake panics when `REPLCONF capa psync2` is answered with anything but `OK` |
| RedisStore.HandshakeCompletes | src/redis_store.rs:131-151 | against the replies `PONG`, `OK`, `OK`, `FULLRESYNC` and a snapshot, the handshake sends PING, `REPLCONF listening-port <port>`, `REPLCONF capa psync2` and `PSYNC ? -1` in that order, and leaves exactly what follows the snapshot unread |
| RedisStore.MasterHandshakeReplies | src/redis_store.rs:179-199 | a master answers the four handshake requests with `PONG`, `OK`, `OK`, then `FULLRESYNC` and the snapshot, and takes the connection on as its last replica |
| RedisStore.HandshakeWithMaster | src/redis_store.rs:131-151 | replica and master together: the handshake completes against what any master writes, and the master ends up with the connection as its last replica |

## Left out

- **Socket I/O.** Sockets, `TcpStream`, `BufReader` buffering, `flush` and `try_clone` are replaced by the bytes in and the bytes out. A `write_all(...).unwrap()` never fails in the model, so a failed write to a replica, which panics in the code, is not modelled.
- **Concurrency and logging.** Locking through `Arc`/`Mutex`, `thread::spawn` and `tracing` are out of scope, and the state is single-threaded. The replica list is therefore never touched by two connections at once.
- **The infinite loops.** The `loop`s of `handle_connection` and of the replica thread become a finite sequence of request outcomes (`RedisStore.Loop`) and one replica step (`RedisStore.ReplicaStep`).
- **The server's extended command parser and the `Display` of its command type.** Their source is not part of this model. `RedisStore.StoreCommand` is the command type the server matches on, the text sent to replicas is the parameter `render`, and the parser `read_request` calls is the parameter `parse` of `Connection.ReadRequestWith`.
- Commands.ReadCommand: it composes `read_request` with the private four-command `parse_to_cmd` of `command.rs`, not with the server's parser, which also knows `REPLCONF`, `PSYNC` and `INFO`. It matches `read_request` only on frames of `PING`, `ECHO`, `SET` and `GET`, and only if the server's parser treats those as `command.rs` does. `Connection.ReadRequestWithFrame` is the statement for the server's parser, whatever it is.
- Commands.ReadCommandOfFrame: stated with the four-command parser, for the same reason as `Commands.ReadCommand`.
- Commands.ReadCommandFixedOfFrame: stated with the four-command parser, for the same reason as `Commands.ReadCommand`.
- Commands.ReadCommandTenTokens: the panic comes from the four-command parser indexing a missing key. The server's parser is not part of this model, so what it does with the lone word `SET` is not promised; `Connection.ReadRequestWithTenTokens` states what it receives.
- **`String::from_utf8_lossy`.** It is applied to a bulk or RDB payload, and the model returns the payload's bytes one character per byte instead.
- **`apply_rdb_file`.** It does nothing in the code.
- **`src/main.rs` and `src/storage.rs`.** They hold flag parsing, the TCP listener and a trait with no behaviour. They are not part of this model.
- RedisStore.SetStep: `checked_add` of the TTL to now never overflows in the model. The deadline is always `Some`, where the code gives `None` for a deadline past the end of `SystemTime`.
- RedisStore.ReplicaStep: the same applies to `UNIX_EPOCH.checked_add` on the replica.
- RedisStore.TtlRoundTrip: assumes the deadline in milliseconds fits a `u64`. Beyond that the `as u64` cast wraps, which `RedisStore.EpochMillis` models, and the round trip fails.
- RedisStore.ReplicatedSetAgrees: requires the same `u64` bound as `RedisStore.TtlRoundTrip`.
- Commands.ParseToCmdUnknown: the command word is upper-cased for ASCII letters only. Rust's `to_uppercase` also maps some other characters to ASCII letters (`ı` to `I`, `ſ` to `S`), so the code accepts `pıng` and `ſet`, which the model reports as unknown commands.
- Commands.ParseToCmdCaseInsensitive: the same ASCII-only upper-casing. The words are matched case-insensitively for ASCII letters only.
- Connection.ReadRequest: text is one character per byte. The code's `buffer[1..2]` panics when byte 1 or 2 is not a character boundary (as in `*é\r\n`), which the model reads as a failed integer parse instead. `read_line` also fails on bytes that are not UTF-8, and the model accepts any bytes.
- Commands.TakeElements: the length line is cut after its first character, not its first byte. `[1..]` of a length line starting with a multi-byte character (`é3`) panics in the code and parses in the model.
- Connection.ReadResponse: the same one-character-per-byte reading. `buffer[1..buffer.len() - 2]` panics on `+é\n`, where the cut falls inside `é`, and the model returns an empty text.
- ResponseHandler.ReadResponse: the chunk is taken as one character per byte. The code applies `from_utf8_lossy` to the whole chunk, which replaces invalid bytes (and a character cut at the 512-byte limit) with the three-byte `U+FFFD` and so changes the length, and `response[1..len]` panics when a cut falls inside a character. The panic-if-and-only-if-shorter-than-three-bytes clause holds for ASCII chunks only.
- Commands.ParseCommandArray: the capacity overflow of `Vec::with_capacity` is modelled, but the abort when a smaller reservation cannot be allocated is not, because it depends on the memory available.
- Connection.ReadResponseSimple, Connection.ReadFrameRoundTrip, Connection.ReadRequestRoundTrip: these round trips are stated for text without line feeds. A line feed inside a token ends the line early, and the decoders then read a different frame.

## Findings

| source | as written | input that shows it | evidently intended | confidence | as-written member | corrected member |
|---|---|---|---|---|---|---|
| src/util.rs:7-11 | the odd-length check tests the number of decoded bytes, not the number of hex digits | `"ab"` gives `None`; `"abcde"` gives two bytes and silently drops the `e` | reject an odd number of digits and decode every even one | not executed | Util.HexToBytes, Util.HexToBytesOneByte, Util.HexToBytesFiveDigits, Util.HexToBytesAsWritten | Util.HexToBytesChecked, Util.HexRoundTrip |
| src/redis_store/connection.rs:103 | the element count is the single character `buffer[1..2]` | a request of ten tokens (`*10\r\n…`) is read as its first token alone, and the other nine elements are left in the stream to be misread as the next request | parse the whole count before the `"\r\n"` | not executed | Connection.ReadRequest, Connection.ReadRequestTenTokens, Connection.ReadRequestWithTenTokens | Connection.ReadRequestFixed, Connection.ReadRequestFixedRoundTrip, Connection.ReadRequestFixedWithFrame |

The server keeps the code as written in both places. It decodes `EMPTY_RDB` with `Util.HexToBytes` (`Util.EmptyRdbBytes`); the constant has an even number of digits, so the two `hex_to_bytes` versions agree on it (`Util.EmptyRdbDecodes`). Requests are read by `Connection.ReadRequestWith`, the reader as written with the command parser as a parameter; `Connection.ReadRequestFixedWith` uses the corrected reader. The two readers agree on every frame of up to nine tokens (`Connection.ReadRequestFixedAgrees`), so both hand any parser the whole token array of such a frame (`Connection.ReadRequestWithFrame`, `Connection.ReadRequestFixedWithFrame`); they part only on longer frames (`Connection.ReadRequestWithTenTokens`).
