/** `src/redis_store.rs`: the server's state and what it does with each
    command, as step functions.

    A connection is named by a number; what the server writes is a list of
    `Write`s, each naming the connection it goes to, in the order they are
    made. Instants are nanoseconds since the UNIX epoch and "now" is a
    parameter. The `Display` of the server's command type is not part of
    this model: it is the parameter `render`. */
module RedisStore {
  import opened Base
  import opened Decimal
  import opened Text
  import opened Connection
  import opened DataItems
  import opened Storage
  import opened Util

  // ---------------------------------------------------------------------
  // Replication configuration

  /** `Role`. */
  datatype Role = Master | Slave

  /** `Display` of `Role`. */
  function RoleName(role: Role): (s: string)
    ensures s == "master" || s == "slave"
  {
    match role
    case Master => "master"
    case Slave => "slave"
  }

  /** The replication id every server reports. */
  const MASTER_REPLID: string := "8371b4fb1155b71f4a04d3e1bc3e18c4a990aeeb"

  /** `ReplicationConfig`. */
  datatype ReplicationConfig = ReplicationConfig(role: Role, masterReplid: string, masterReplOffset: nat)

  /** `ReplicationConfig::new`: the given role, the fixed 40-character id,
      offset 0. */
  function NewConfig(role: Role): (c: ReplicationConfig)
    ensures c.role == role && c.masterReplid == MASTER_REPLID && c.masterReplOffset == 0
    ensures |c.masterReplid| == 40
  {
    ReplicationConfig(role, MASTER_REPLID, 0)
  }

  /** `Display` of `ReplicationConfig`: three `key:value` lines separated
      (not ended) by `"\r\n"`. */
  function ConfigText(c: ReplicationConfig): string {
    "role:" + RoleName(c.role) + CRLF
    + "master_replid:" + c.masterReplid + CRLF
    + "master_repl_offset:" + NatToString(c.masterReplOffset)
  }

  /** The two roles render differently, so the text tells them apart. */
  lemma {:induction false} RoleNameInjective(a: Role, b: Role)
    ensures RoleName(a) == RoleName(b) <==> a == b
  {
    if a != b {
      assert RoleName(a)[0] != RoleName(b)[0];
    }
  }

  /** The configuration text splits back into its three lines: the role,
      the id and the offset, in that order. */
  lemma {:induction false} ConfigTextLines(c: ReplicationConfig)
    requires NoChar(c.masterReplid, '\n')
    ensures Split(ConfigText(c), CRLF)
            == ["role:" + RoleName(c.role), "master_replid:" + c.masterReplid,
                "master_repl_offset:" + NatToString(c.masterReplOffset)]
  {
    var a := "role:" + RoleName(c.role);
    var b := "master_replid:" + c.masterReplid;
    var d := "master_repl_offset:" + NatToString(c.masterReplOffset);
    ConfigLinesPlain(c);
    ThreeLines(a, b, d);
    ConfigTextShape(c);
  }

  lemma {:induction false} ConfigTextShape(c: ReplicationConfig)
    ensures ConfigText(c)
            == ("role:" + RoleName(c.role)) + CRLF
               + (("master_replid:" + c.masterReplid) + CRLF + ("master_repl_offset:" + NatToString(c.masterReplOffset)))
  {
  }

  lemma {:induction false} ConfigLinesPlain(c: ReplicationConfig)
    requires NoChar(c.masterReplid, '\n')
    ensures NoChar("role:" + RoleName(c.role), '\n')
    ensures NoChar("master_replid:" + c.masterReplid, '\n')
    ensures NoChar("master_repl_offset:" + NatToString(c.masterReplOffset), '\n')
  {
    NatToStringPlain(c.masterReplOffset);
  }

  lemma {:induction false} ThreeLines(a: string, b: string, d: string)
    requires NoChar(a, '\n') && NoChar(b, '\n') && NoChar(d, '\n')
    ensures Split(a + CRLF + (b + CRLF + d), CRLF) == [a, b, d]
  {
    CrlfNoMatchAll(d);
    SplitNoMatch(d, CRLF);
    CrlfNoMatch(b, d);
    SplitCons(b, CRLF, d);
    CrlfNoMatch(a, b + CRLF + d);
    SplitCons(a, CRLF, b + CRLF + d);
  }

  // ---------------------------------------------------------------------
  // Commands, time and state

  /** The server's command type, as `handle_connection` and the replica
      loop match on it. Its parser and its `Display` are not part of this
      model. */
  datatype StoreCommand =
    | Ping
    | Echo(text: string)
    | ReplConf(args: string)
    | Psync(id: string, offset: string)
    | Info(section: string)
    | Set(key: string, value: string, ttl: Option<nat>)
    | Get(key: string)

  /** `Duration::from_millis`: nanoseconds in a millisecond. */
  const NANOS_PER_MILLI: nat := 1_000_000

  /** `SystemTime::now().checked_add(Duration::from_millis(ms))`: the
      master's deadline for a TTL of `ms` milliseconds. */
  function MasterDeadline(now: nat, ms: nat): nat {
    now + ms * NANOS_PER_MILLI
  }

  /** `duration_since(UNIX_EPOCH).unwrap().as_millis() as u64`: whole
      milliseconds since the epoch, truncated to 64 bits by the cast. */
  function EpochMillis(t: nat): (ms: nat)
    ensures ms < U64_LIMIT
  {
    (t / NANOS_PER_MILLI) % U64_LIMIT
  }

  /** `UNIX_EPOCH.checked_add(Duration::from_millis(ms))`: the replica's
      deadline for an absolute TTL of `ms` milliseconds. */
  function ReplicaDeadline(ms: nat): nat {
    ms * NANOS_PER_MILLI
  }

  /** A connection, by number. */
  type ConnId = nat

  /** Bytes written to one connection. */
  datatype Write = Write(conn: ConnId, bytes: string)

  /** `RedisStore` with its `Core`: the listening address, the storage
      engine, the connections of the attached replicas in attach order, and
      the replication configuration. */
  datatype Store = Store(address: string, engine: Engine, replicas: seq<ConnId>, config: ReplicationConfig)

  /** `RedisStore::new`. */
  function NewStore(role: Role, address: string): (s: Store)
    ensures s.engine == map[] && s.replicas == [] && s.config == NewConfig(role) && s.address == address
  {
    Store(address, map[], [], NewConfig(role))
  }

  /** `Core::set` (and `RedisStore::set`): insert a fresh data item. */
  function CoreSet(s: Store, key: string, value: string, ttl: Option<nat>): (r: Store)
    ensures r.replicas == s.replicas && r.config == s.config && r.address == s.address
  {
    s.(engine := Insert(s.engine, key, value, ttl))
  }

  /** `Core::get` (and `RedisStore::get`): the value unless absent or
      expired at `now`. */
  function CoreGet(s: Store, key: string, now: nat): (r: Option<string>)
    ensures r.Some? <==> key in s.engine && Alive(s.engine[key], now)
    ensures r.Some? ==> r.value == s.engine[key].value
  {
    Lookup(s.engine, key, now)
  }

  /** `Core` keeps its data exactly as `InMemoryStorage` does, so every
      property of one holds of the other. */
  lemma {:induction false} CoreIsInMemoryStorage(s: Store, key: string, value: string, ttl: Option<nat>, k: string, now: nat)
    ensures CoreGet(s, k, now) == Storage.Get(InMemoryStorage(s.engine), k, now)
    ensures CoreSet(s, key, value, ttl).engine == Storage.Set(InMemoryStorage(s.engine), key, value, ttl).storage
  {
  }

  /** `get(k)` after `set(k, v, deadline)` is `v` exactly until the
      deadline has passed, and `set` of `k` changes no other key. */
  lemma {:induction false} CoreGetAfterSet(s: Store, key: string, value: string, ttl: Option<nat>, k: string, now: nat)
    ensures CoreGet(CoreSet(s, key, value, ttl), k, now)
            == if k == key then (if Alive(New(value, ttl), now) then Some(value) else None)
               else CoreGet(s, k, now)
  {
  }

  // ---------------------------------------------------------------------
  // replica_propagation

  /** One request frame of `bytes` to each of `replicas`, in order. */
  function Broadcast(replicas: seq<ConnId>, bytes: string): (ws: seq<Write>)
    ensures |ws| == |replicas|
  {
    if replicas == [] then []
    else [Write(replicas[0], bytes)] + Broadcast(replicas[1..], bytes)
  }

  /** The `i`-th write of a broadcast goes to the `i`-th replica. */
  lemma {:induction false} BroadcastWrites(replicas: seq<ConnId>, bytes: string)
    ensures forall i :: 0 <= i < |replicas| ==> Broadcast(replicas, bytes)[i] == Write(replicas[i], bytes)
  {
    if replicas != [] {
      BroadcastWrites(replicas[1..], bytes);
      var ws := Broadcast(replicas, bytes);
      forall i | 0 <= i < |replicas| ensures ws[i] == Write(replicas[i], bytes) {
        if i > 0 {
          assert ws[i] == Broadcast(replicas[1..], bytes)[i - 1];
        }
      }
    }
  }

  /** `replica_propagation`: a master writes one request to every attached
      replica; a replica writes nothing. */
  function ReplicaPropagation(s: Store, cmd: StoreCommand, render: StoreCommand -> string): (ws: seq<Write>)
    ensures s.config.role == Slave ==> ws == []
    ensures s.config.role == Master ==> |ws| == |s.replicas|
  {
    if s.config.role == Master then Broadcast(s.replicas, WriteRequest(render(cmd))) else []
  }

  /** A master's propagation writes the rendered command as a request to
      every attached replica, in the order they attached. */
  lemma {:induction false} PropagationWrites(s: Store, cmd: StoreCommand, render: StoreCommand -> string)
    requires s.config.role == Master
    ensures var ws := ReplicaPropagation(s, cmd, render);
            forall i :: 0 <= i < |ws| ==> ws[i] == Write(s.replicas[i], WriteRequest(render(cmd)))
  {
    BroadcastWrites(s.replicas, WriteRequest(render(cmd)));
  }

  // ---------------------------------------------------------------------
  // handle_connection

  /** What one command does on a client connection: the new state, the
      writes in order, the command handed to `replica_propagation` (if
      any), and whether the loop goes on reading from this connection. */
  datatype Step = Step(store: Store, writes: seq<Write>, propagated: Option<StoreCommand>, serving: bool)

  /** The reply `handle_connection` writes for a `SET`. */
  function Reply(conn: ConnId, r: ResponseType): Write {
    Write(conn, EncodeResponse(r))
  }

  /** The TTL a `SET` on the master stores: the deadline `ms` from now. */
  function MasterTtl(now: nat, ttl: Option<nat>): Option<nat> {
    match ttl
    case None => None
    case Some(ms) => Some(MasterDeadline(now, ms))
  }

  /** The TTL a `SET` is propagated with: the stored deadline as whole
      epoch milliseconds. */
  function PropagatedTtl(deadline: Option<nat>): Option<nat> {
    match deadline
    case None => None
    case Some(t) => Some(EpochMillis(t))
  }

  /** The body of the `handle_connection` loop for one command read from
      connection `conn` at instant `now`. */
  function HandleCommand(s: Store, conn: ConnId, cmd: StoreCommand, now: nat, render: StoreCommand -> string): (r: Step)
    ensures r.serving <==> !cmd.Psync?
    ensures r.store.replicas == if cmd.Psync? then s.replicas + [conn] else s.replicas
    ensures !cmd.Set? && !cmd.Psync? ==> r.store == s && r.propagated.None? && |r.writes| == 1
    ensures r.store.config == s.config && r.store.address == s.address
    ensures 1 <= |r.writes| && r.writes[0].conn == conn
  {
    match cmd
    case Ping => Answer(s, conn, SimpleString("PONG"))
    case Echo(text) => Answer(s, conn, SimpleString(text))
    case ReplConf(_) => Answer(s, conn, SimpleString("OK"))
    case Psync(_, _) => PsyncStep(s, conn)
    case Info(section) => Answer(s, conn, InfoResponse(s.config, section))
    case Set(key, value, ttl) => SetStep(s, conn, key, value, ttl, now, render)
    case Get(key) => Answer(s, conn, BulkString(CoreGet(s, key, now)))
  }

  /** A command answered with one response and nothing else. */
  function Answer(s: Store, conn: ConnId, response: ResponseType): (r: Step)
    ensures r.store == s && r.propagated.None? && r.serving
    ensures r.writes == [Write(conn, EncodeResponse(response))]
  {
    Step(s, [Reply(conn, response)], None, true)
  }

  /** The `INFO` answer: the configuration for the `replication` section,
      an error for any other. */
  function InfoResponse(c: ReplicationConfig, section: string): ResponseType {
    if section == "replication" then BulkString(Some(ConfigText(c)))
    else SimpleError("ERR unknown section")
  }

  /** The `PSYNC` arm. */
  function PsyncStep(s: Store, conn: ConnId): (r: Step)
    ensures r.store == s.(replicas := s.replicas + [conn])
    ensures !r.serving && r.propagated.None? && |r.writes| == 2
    ensures r.writes[0].conn == conn && r.writes[1].conn == conn
  {
    var fullResync := Reply(conn, SimpleString("FULLRESYNC " + s.config.masterReplid + " 0"));
    var rdb := Reply(conn, RdbFile(EmptyRdbBytes()));
    Step(s.(replicas := s.replicas + [conn]), [fullResync, rdb], None, false)
  }

  /** The `SET` arm. */
  function SetStep(s: Store, conn: ConnId, key: string, value: string, ttl: Option<nat>, now: nat,
                   render: StoreCommand -> string): (r: Step)
    ensures r.store == CoreSet(s, key, value, MasterTtl(now, ttl))
    ensures r.serving && r.propagated == Some(Set(key, value, PropagatedTtl(MasterTtl(now, ttl))))
    ensures 1 <= |r.writes| && r.writes[0] == Write(conn, EncodeResponse(SimpleString("OK")))
  {
    var deadline := MasterTtl(now, ttl);
    var s' := CoreSet(s, key, value, deadline);
    var forward := Set(key, value, PropagatedTtl(deadline));
    Step(s', [Reply(conn, SimpleString("OK"))] + ReplicaPropagation(s', forward, render), Some(forward), true)
  }

  /** `PING`, `ECHO` and `REPLCONF` get a simple string: `PONG`, the text
      itself and `OK`. */
  lemma {:induction false} SimpleReplies(s: Store, conn: ConnId, text: string, args: string, now: nat, render: StoreCommand -> string)
    ensures HandleCommand(s, conn, Ping, now, render).writes == [Write(conn, "+PONG" + CRLF)]
    ensures HandleCommand(s, conn, Echo(text), now, render).writes == [Write(conn, "+" + text + CRLF)]
    ensures HandleCommand(s, conn, ReplConf(args), now, render).writes == [Write(conn, "+OK" + CRLF)]
  {
    assert "+" + "PONG" + CRLF == "+PONG" + CRLF;
    assert "+" + "OK" + CRLF == "+OK" + CRLF;
  }

  /** `INFO` answers the configuration as a bulk string exactly for the
      `replication` section, and an error for every other section. */
  lemma {:induction false} InfoReply(s: Store, conn: ConnId, section: string, now: nat, render: StoreCommand -> string)
    ensures var w := HandleCommand(s, conn, Info(section), now, render).writes;
            && (section == "replication" <==> w == [Write(conn, EncodeResponse(BulkString(Some(ConfigText(s.config)))))])
            && (section != "replication" <==> w == [Write(conn, "-ERR unknown section" + CRLF)])
  {
    var w := HandleCommand(s, conn, Info(section), now, render).writes;
    var bulk := EncodeResponse(BulkString(Some(ConfigText(s.config))));
    var err := "-ERR unknown section" + CRLF;
    UnknownSectionText();
    assert bulk[0] != err[0];
    if section == "replication" {
      assert w == [Write(conn, bulk)];
    } else {
      assert w == [Write(conn, err)];
    }
  }

  lemma {:induction false} UnknownSectionText()
    ensures EncodeResponse(SimpleError("ERR unknown section")) == "-ERR unknown section" + CRLF
  {
    assert "-" + "ERR unknown section" == "-ERR unknown section";
  }

  /** `GET` answers the stored value as a bulk string while it is alive,
      and the null bulk string `$-1` when the key is absent or expired. */
  lemma {:induction false} GetReply(s: Store, conn: ConnId, key: string, now: nat, render: StoreCommand -> string)
    ensures var w := HandleCommand(s, conn, Get(key), now, render).writes;
            && (key in s.engine && Alive(s.engine[key], now) ==>
                  w == [Write(conn, EncodeResponse(BulkString(Some(s.engine[key].value))))])
            && (!(key in s.engine && Alive(s.engine[key], now)) ==> w == [Write(conn, "$-1" + CRLF)])
  {
  }

  /** `PSYNC`: first the `FULLRESYNC <id> 0` line, then the 88-byte empty
      snapshot as an RDB frame, both on this connection; then the
      connection joins the replicas, last, and the loop ends. */
  lemma {:induction false} PsyncOrder(s: Store, conn: ConnId, id: string, offset: string, now: nat, render: StoreCommand -> string)
    ensures var r := HandleCommand(s, conn, Psync(id, offset), now, render);
            && r.writes == [Write(conn, "+FULLRESYNC " + s.config.masterReplid + " 0" + CRLF),
                            Write(conn, "$88" + CRLF + Latin1(EmptyRdbBytes()))]
            && r.store.replicas == s.replicas + [conn]
            && r.store.engine == s.engine
            && !r.serving
  {
    var payload := EmptyRdbBytes();
    FullResyncText(s.config.masterReplid);
    RdbFrameText(payload);
    var r := PsyncStep(s, conn);
    assert r.writes == [Reply(conn, SimpleString("FULLRESYNC " + s.config.masterReplid + " 0")), Reply(conn, RdbFile(payload))];
  }

  lemma {:induction false} FullResyncText(id: string)
    ensures EncodeResponse(SimpleString("FULLRESYNC " + id + " 0")) == "+FULLRESYNC " + id + " 0" + CRLF
  {
    Assoc("+", "FULLRESYNC " + id, " 0");
    Assoc("+", "FULLRESYNC ", id);
    FullResyncMarker();
  }

  lemma {:induction false} FullResyncMarker()
    ensures "+" + "FULLRESYNC " == "+FULLRESYNC "
  {
  }

  lemma {:induction false} RdbFrameText(payload: seq<byte>)
    requires |payload| == 88
    ensures EncodeResponse(RdbFile(payload)) == "$88" + CRLF + Latin1(payload)
  {
    EightyEight();
  }

  lemma {:induction false} EightyEight()
    ensures NatToString(88) == "88"
  {
    assert NatToString(8) == "8";
  }

  /** `SET`: the value is stored before anything is written; the `+OK`
      reply comes first; then every replica, if this is a master, gets the
      command with its deadline as epoch milliseconds, in attach order. */
  lemma {:induction false} SetOrder(s: Store, conn: ConnId, key: string, value: string, ttl: Option<nat>, now: nat, render: StoreCommand -> string)
    ensures var r := HandleCommand(s, conn, Set(key, value, ttl), now, render);
            var forward := Set(key, value, PropagatedTtl(MasterTtl(now, ttl)));
            && r.store == CoreSet(s, key, value, MasterTtl(now, ttl))
            && r.writes[0] == Write(conn, "+OK" + CRLF)
            && r.writes[1..] == ReplicaPropagation(r.store, forward, render)
            && (s.config.role == Slave ==> |r.writes| == 1)
            && (s.config.role == Master ==>
                  |r.writes| == 1 + |s.replicas|
                  && forall i :: 1 <= i < |r.writes| ==> r.writes[i] == Write(s.replicas[i - 1], WriteRequest(render(forward))))
            && r.propagated == Some(forward)
  {
    var r := HandleCommand(s, conn, Set(key, value, ttl), now, render);
    var forward := Set(key, value, PropagatedTtl(MasterTtl(now, ttl)));
    assert r.writes[1..] == ReplicaPropagation(r.store, forward, render) by {
      var ok := [Reply(conn, SimpleString("OK"))];
      assert r.writes == ok + ReplicaPropagation(r.store, forward, render);
    }
    if s.config.role == Master {
      PropagationWrites(r.store, forward, render);
      forall i | 1 <= i < |r.writes| ensures r.writes[i] == Write(s.replicas[i - 1], WriteRequest(render(forward))) {
        assert r.writes[i] == r.writes[1..][i - 1];
      }
    }
  }

  // ---------------------------------------------------------------------
  // TTL round trip

  /** The replica's deadline is the master's rounded down to a whole
      millisecond: never later, and less than a millisecond earlier. This
      needs the deadline to be within the 64-bit millisecond range, which
      every deadline before the year 584,556,019 is. */
  lemma {:induction false} TtlRoundTrip(now: nat, ms: nat)
    requires MasterDeadline(now, ms) / NANOS_PER_MILLI < U64_LIMIT
    ensures var d := MasterDeadline(now, ms);
            var d' := ReplicaDeadline(EpochMillis(d));
            && d' == d - d % NANOS_PER_MILLI
            && d' <= d < d' + NANOS_PER_MILLI
  {
    var d := MasterDeadline(now, ms);
    assert EpochMillis(d) == d / NANOS_PER_MILLI;
    assert (d / NANOS_PER_MILLI) * NANOS_PER_MILLI + d % NANOS_PER_MILLI == d;
  }

  /** What the replica does with a command from its master, one iteration
      of the replica loop: `REPLCONF` gets `REPLCONF ACK 0` as an array
      frame written back to the master, `SET` is applied with its absolute
      TTL turned into a deadline, and everything else is ignored. */
  function ReplicaStep(s: Store, cmd: StoreCommand): (r: (Store, string))
    ensures !cmd.Set? ==> r.0 == s
    ensures !cmd.ReplConf? ==> r.1 == []
    ensures r.0.replicas == s.replicas && r.0.config == s.config
  {
    match cmd
    case ReplConf(_) => (s, EncodeResponse(RespArray("REPLCONF ACK 0")))
    case Set(key, value, ttl) =>
      var deadline := match ttl case None => None case Some(ms) => Some(ReplicaDeadline(ms));
      (CoreSet(s, key, value, deadline), [])
    case _ => (s, [])
  }

  /** The acknowledgement is the request frame of `REPLCONF ACK 0`. */
  lemma {:induction false} ReplicaAck(s: Store, args: string)
    ensures ReplicaStep(s, ReplConf(args)).1 == WriteRequest("REPLCONF ACK 0")
  {
    RespArrayIsWriteRequest("REPLCONF ACK 0");
  }

  /** A `SET` with a TTL replicated from master to replica: once the replica
      has applied the command the master propagated, both answer `GET` the
      same at every instant except in the final partial millisecond before
      the master's deadline, where only the master still has the value. */
  lemma {:induction false} ReplicatedSetAgrees(master: Store, replica: Store, conn: ConnId, key: string, value: string,
                            ms: nat, now: nat, t: nat, render: StoreCommand -> string)
    requires MasterDeadline(now, ms) / NANOS_PER_MILLI < U64_LIMIT
    ensures var r := HandleCommand(master, conn, Set(key, value, Some(ms)), now, render);
            var d := MasterDeadline(now, ms);
            var replica' := ReplicaStep(replica, r.propagated.value).0;
            && (CoreGet(replica', key, t).Some? ==> CoreGet(r.store, key, t) == CoreGet(replica', key, t))
            && (t <= d - d % NANOS_PER_MILLI || d < t ==> CoreGet(replica', key, t) == CoreGet(r.store, key, t))
  {
    TtlRoundTrip(now, ms);
  }

  /** Without a TTL, the replica holds the value forever, as the master
      does. */
  lemma {:induction false} ReplicatedSetNoTtl(master: Store, replica: Store, conn: ConnId, key: string, value: string,
                           now: nat, t: nat, render: StoreCommand -> string)
    ensures var r := HandleCommand(master, conn, Set(key, value, None), now, render);
            var replica' := ReplicaStep(replica, r.propagated.value).0;
            CoreGet(replica', key, t) == CoreGet(r.store, key, t) == Some(value)
  {
  }

  // ---------------------------------------------------------------------
  // The handle_connection loop

  /** How a session on a client connection ends. */
  datatype End = Open | HandedOver | Panicked

  /** A session: the final state, all writes in order, the number of
      requests consumed, and how it ended. */
  datatype Session = Session(store: Store, writes: seq<Write>, consumed: nat, end: End)

  /** What the `handle_connection` loop needs from the handling of one
      command: it keeps the loop going exactly when the command is not
      `PSYNC`, and only `PSYNC` changes the replica list, by appending the
      connection `conn`. */
  type CommandHandler = (Store, StoreCommand, nat) -> Step

  ghost predicate HandsOverOnPsync(handle: CommandHandler, conn: ConnId) {
    forall s: Store, cmd: StoreCommand, now: nat ::
      && (handle(s, cmd, now).serving <==> !cmd.Psync?)
      && handle(s, cmd, now).store.replicas == if cmd.Psync? then s.replicas + [conn] else s.replicas
  }

  /** The `handle_connection` loop over the results of successive
      `read_request` calls (`requests[i]`, read at `clock[i]`), with
      `handle` for the handling of one command. A failed read is unwrapped
      and panics; a command that does not keep the loop going ends it;
      otherwise the loop goes on until the requests run out. */
  function Loop(s: Store, requests: seq<Outcome<StoreCommand>>, clock: seq<nat>, handle: CommandHandler): (r: Session)
    requires |clock| == |requests|
    ensures r.consumed <= |requests|
    ensures r.end == Open ==> r.consumed == |requests|
    decreases |requests|
  {
    if requests == [] then Session(s, [], 0, Open)
    else if !requests[0].Ok? then Session(s, [], 1, Panicked)
    else
      var step := handle(s, requests[0].value, clock[0]);
      if !step.serving then Session(step.store, step.writes, 1, HandedOver)
      else
        var rest := Loop(step.store, requests[1..], clock[1..], handle);
        Session(rest.store, step.writes + rest.writes, 1 + rest.consumed, rest.end)
  }

  /** The body of the `handle_connection` loop on connection `conn`. */
  function Handler(conn: ConnId, render: StoreCommand -> string): CommandHandler {
    (st: Store, cmd: StoreCommand, now: nat) => HandleCommand(st, conn, cmd, now, render)
  }

  /** `handle_connection` on connection `conn`: the loop with
      `HandleCommand` as its body. */
  function Serve(s: Store, conn: ConnId, requests: seq<Outcome<StoreCommand>>, clock: seq<nat>,
                 render: StoreCommand -> string): (r: Session)
    requires |clock| == |requests|
  {
    Loop(s, requests, clock, Handler(conn, render))
  }

  /** `HandleCommand` hands the connection over on `PSYNC` and only then. */
  lemma {:induction false} HandleCommandHandsOver(conn: ConnId, render: StoreCommand -> string)
    ensures HandsOverOnPsync(Handler(conn, render), conn)
  {
    var handle := Handler(conn, render);
    forall s: Store, cmd: StoreCommand, now: nat
      ensures && (handle(s, cmd, now).serving <==> !cmd.Psync?)
              && handle(s, cmd, now).store.replicas == if cmd.Psync? then s.replicas + [conn] else s.replicas
    {
      assert handle(s, cmd, now) == HandleCommand(s, conn, cmd, now, render);
    }
  }

  /** The loop ends right after the first `PSYNC`: nothing after it is
      read from the connection, which is then the last replica. */
  lemma {:induction false} ServeStopsAtPsync(s: Store, conn: ConnId, requests: seq<Outcome<StoreCommand>>,
                                             clock: seq<nat>, render: StoreCommand -> string, j: nat)
    requires |clock| == |requests| && j < |requests|
    requires requests[j].Ok? && requests[j].value.Psync?
    requires forall i :: 0 <= i < j ==> requests[i].Ok? && !requests[i].value.Psync?
    ensures var r := Serve(s, conn, requests, clock, render);
            r.consumed == j + 1 && r.end == HandedOver
            && |r.store.replicas| >= 1 && r.store.replicas[|r.store.replicas| - 1] == conn
  {
    HandleCommandHandsOver(conn, render);
    LoopStopsAtPsync(s, requests, clock, Handler(conn, render), conn, j);
  }

  /** The same for any handler that hands over on `PSYNC`. */
  lemma {:induction false} LoopStopsAtPsync(s: Store, requests: seq<Outcome<StoreCommand>>, clock: seq<nat>,
                                            handle: CommandHandler, conn: ConnId, j: nat)
    requires HandsOverOnPsync(handle, conn)
    requires |clock| == |requests| && j < |requests|
    requires requests[j].Ok? && requests[j].value.Psync?
    requires forall i :: 0 <= i < j ==> requests[i].Ok? && !requests[i].value.Psync?
    ensures var r := Loop(s, requests, clock, handle);
            r.consumed == j + 1 && r.end == HandedOver
            && |r.store.replicas| >= 1 && r.store.replicas[|r.store.replicas| - 1] == conn
    decreases j
  {
    var step := handle(s, requests[0].value, clock[0]);
    if j > 0 {
      PsyncStillAhead(requests, j);
      LoopStopsAtPsync(step.store, requests[1..], clock[1..], handle, conn, j - 1);
    }
  }

  /** Once the first request is read, the first `PSYNC` is one place
      nearer. */
  lemma {:induction false} PsyncStillAhead(requests: seq<Outcome<StoreCommand>>, j: nat)
    requires 0 < j < |requests|
    requires requests[j].Ok? && requests[j].value.Psync?
    requires forall i :: 0 <= i < j ==> requests[i].Ok? && !requests[i].value.Psync?
    ensures requests[1..][j - 1].Ok? && requests[1..][j - 1].value.Psync?
    ensures forall i :: 0 <= i < j - 1 ==> requests[1..][i].Ok? && !requests[1..][i].value.Psync?
  {
    forall i | 0 <= i < j - 1 ensures requests[1..][i].Ok? && !requests[1..][i].value.Psync? {
      assert requests[1..][i] == requests[i + 1];
    }
    assert requests[1..][j - 1] == requests[j];
  }

  /** A session with no `PSYNC` and no failed read consumes every request
      and stays open; the client connection never becomes a replica. */
  lemma {:induction false} ServeNoPsync(s: Store, conn: ConnId, requests: seq<Outcome<StoreCommand>>,
                                        clock: seq<nat>, render: StoreCommand -> string)
    requires |clock| == |requests|
    requires forall i :: 0 <= i < |requests| ==> requests[i].Ok? && !requests[i].value.Psync?
    ensures var r := Serve(s, conn, requests, clock, render);
            r.end == Open && r.consumed == |requests| && r.store.replicas == s.replicas
  {
    HandleCommandHandsOver(conn, render);
    LoopNoPsync(s, requests, clock, Handler(conn, render), conn);
  }

  /** The same for any handler that hands over on `PSYNC`. */
  lemma {:induction false} LoopNoPsync(s: Store, requests: seq<Outcome<StoreCommand>>, clock: seq<nat>,
                                       handle: CommandHandler, conn: ConnId)
    requires HandsOverOnPsync(handle, conn)
    requires |clock| == |requests|
    requires forall i :: 0 <= i < |requests| ==> requests[i].Ok? && !requests[i].value.Psync?
    ensures var r := Loop(s, requests, clock, handle);
            r.end == Open && r.consumed == |requests| && r.store.replicas == s.replicas
    decreases |requests|
  {
    if requests != [] {
      var step := handle(s, requests[0].value, clock[0]);
      var tail := requests[1..];
      forall i | 0 <= i < |tail| ensures tail[i].Ok? && !tail[i].value.Psync? {
        assert tail[i] == requests[i + 1];
      }
      LoopNoPsync(step.store, tail, clock[1..], handle, conn);
    }
  }

  /** A failed read ends the loop with a panic right there: the requests
      before it are handled, nothing after it is read, and the connection
      has not become a replica. When the very first read fails, nothing is
      written and the store is untouched. */
  lemma {:induction false} ServeFailedRead(s: Store, conn: ConnId, requests: seq<Outcome<StoreCommand>>,
                                           clock: seq<nat>, render: StoreCommand -> string, j: nat)
    requires |clock| == |requests| && j < |requests|
    requires !requests[j].Ok?
    requires forall i :: 0 <= i < j ==> requests[i].Ok? && !requests[i].value.Psync?
    ensures var r := Serve(s, conn, requests, clock, render);
            && r.consumed == j + 1 && r.end == Panicked && r.store.replicas == s.replicas
            && (j == 0 ==> r.writes == [] && r.store == s)
  {
    HandleCommandHandsOver(conn, render);
    LoopFailedRead(s, requests, clock, Handler(conn, render), conn, j);
  }

  /** The same for any handler that hands over on `PSYNC`. */
  lemma {:induction false} LoopFailedRead(s: Store, requests: seq<Outcome<StoreCommand>>, clock: seq<nat>,
                                          handle: CommandHandler, conn: ConnId, j: nat)
    requires HandsOverOnPsync(handle, conn)
    requires |clock| == |requests| && j < |requests|
    requires !requests[j].Ok?
    requires forall i :: 0 <= i < j ==> requests[i].Ok? && !requests[i].value.Psync?
    ensures var r := Loop(s, requests, clock, handle);
            && r.consumed == j + 1 && r.end == Panicked && r.store.replicas == s.replicas
            && (j == 0 ==> r.writes == [] && r.store == s)
    decreases j
  {
    if j > 0 {
      var step := handle(s, requests[0].value, clock[0]);
      var tail := requests[1..];
      forall i | 0 <= i < j - 1 ensures tail[i].Ok? && !tail[i].value.Psync? {
        assert tail[i] == requests[i + 1];
      }
      assert tail[j - 1] == requests[j];
      LoopFailedRead(step.store, tail, clock[1..], handle, conn, j - 1);
    }
  }

  // ---------------------------------------------------------------------
  // start_replicate

  /** `address.split(":")[1]`: the port, or a panic when the address has
      no `:`. */
  function Port(address: string): (r: Outcome<string>)
    ensures !r.Err?
  {
    var parts := Split(address, ":");
    if |parts| < 2 then Panic else Ok(parts[1])
  }

  /** The port is the text between the first `:` and the next one, if
      any: a `host:port` address with a host free of `:` gives its port. */
  lemma {:induction false} PortOf(host: string, tail: string)
    requires NoChar(host, ':')
    ensures Port(host + ":" + tail) == Ok(Split(tail, ":")[0])
    ensures NoChar(tail, ':') ==> Port(host + ":" + tail) == Ok(tail)
  {
    CharNoMatch(host, ':', tail);
    SplitCons(host, ":", tail);
    if NoChar(tail, ':') {
      CharNoMatchAll(tail, ':');
      SplitNoMatch(tail, ":");
    }
  }

  /** `split(":")[1]` panics exactly when the address has no `:`. */
  lemma {:induction false} PortPanics(address: string)
    ensures Port(address).Panic? <==> NoChar(address, ':')
  {
    FindSpec(address, ":", 0);
    if NoChar(address, ':') {
      CharNoMatchAll(address, ':');
      SplitNoMatch(address, ":");
    } else {
      var k :| 0 <= k < |address| && address[k] == ':';
      assert MatchAt(address, ":", k) by {
        assert address[k..k + 1] == [address[k]];
      }
    }
  }

  /** One `read_response().unwrap()` in the handshake, checked against the
      expected text when there is one (`assert_eq!` panics on a mismatch).
      The result is what is left unread. */
  function Expect(input: string, want: Option<string>): (r: Outcome<string>)
    ensures !r.Err?
  {
    match ReadResponse(input)
    case Ok((Some(got), rest)) => if want.Some? && got != want.value then Panic else Ok(rest)
    case _ => Panic
  }

  /** The four requests of the handshake, in order. */
  function HandshakeRequests(port: string): seq<string> {
    ["PING", "REPLCONF listening-port " + port, "REPLCONF capa psync2", "PSYNC ? -1"]
  }

  /** The handshake of `start_replicate`, against the bytes the master
      sends: `PING` must get `PONG`, each `REPLCONF` must get `OK`, the
      `PSYNC` reply and then the snapshot are read and not checked. The
      result is what the replica sent, in order, and what is left unread
      for the replica loop. */
  function StartReplicate(address: string, input: string): (r: Outcome<(string, string)>)
    ensures !r.Err?
  {
    var ping := WriteRequest("PING");
    match Expect(input, Some("PONG"))
    case Ok(in1) =>
      (match Port(address)
       case Ok(port) =>
         var listen := WriteRequest("REPLCONF listening-port " + port);
         (match Expect(in1, Some("OK"))
          case Ok(in2) =>
            var capa := WriteRequest("REPLCONF capa psync2");
            (match Expect(in2, Some("OK"))
             case Ok(in3) =>
               var psync := WriteRequest("PSYNC ? -1");
               (match Expect(in3, None)
                case Ok(in4) =>
                  (match Expect(in4, None)
                   case Ok(in5) => Ok((ping + listen + capa + psync, in5))
                   case _ => Panic)
                case _ => Panic)
             case _ => Panic)
          case _ => Panic)
       case _ => Panic)
    case _ => Panic
  }

  /** The bytes of a list of writes, in order. */
  function Sent(ws: seq<Write>): string {
    if ws == [] then [] else ws[0].bytes + Sent(ws[1..])
  }

  /** The handshake against a master: whatever the master's state, the
      replies it writes to `PING`, the two `REPLCONF`s and `PSYNC` let
      the handshake complete; the replica has then sent the four handshake
      requests in order, and the master has taken the connection on as its
      last replica. */
  lemma {:induction false} HandshakeWithMaster(master: Store, conn: ConnId, address: string, port: string, rest: string,
                            now: nat, render: StoreCommand -> string)
    requires Port(address) == Ok(port)
    requires NoChar(master.config.masterReplid, '\n')
    ensures var reqs := HandshakeRequests(port);
            var r1 := HandleCommand(master, conn, Ping, now, render);
            var r2 := HandleCommand(r1.store, conn, ReplConf("listening-port " + port), now, render);
            var r3 := HandleCommand(r2.store, conn, ReplConf("capa psync2"), now, render);
            var r4 := HandleCommand(r3.store, conn, Psync("?", "-1"), now, render);
            var replies := Sent(r1.writes) + Sent(r2.writes) + Sent(r3.writes) + Sent(r4.writes);
            && StartReplicate(address, replies + rest)
               == Ok((WriteRequest(reqs[0]) + WriteRequest(reqs[1]) + WriteRequest(reqs[2]) + WriteRequest(reqs[3]), rest))
            && r4.store.replicas == master.replicas + [conn]
  {
    var id := master.config.masterReplid;
    var r1 := HandleCommand(master, conn, Ping, now, render);
    var r2 := HandleCommand(r1.store, conn, ReplConf("listening-port " + port), now, render);
    var r3 := HandleCommand(r2.store, conn, ReplConf("capa psync2"), now, render);
    var r4 := HandleCommand(r3.store, conn, Psync("?", "-1"), now, render);
    MasterHandshakeReplies(master, conn, port, now, render);
    HandshakeCompletes(address, port, id, EmptyRdbBytes(), rest);
    Regroup5(EncodeResponse(SimpleString("PONG")), EncodeResponse(SimpleString("OK")), EncodeResponse(SimpleString("OK")),
             EncodeResponse(SimpleString("FULLRESYNC " + id + " 0")), EncodeResponse(RdbFile(EmptyRdbBytes())), rest);
  }

  /** What a master writes back to the four handshake requests. */
  lemma {:induction false} MasterHandshakeReplies(master: Store, conn: ConnId, port: string, now: nat, render: StoreCommand -> string)
    ensures var r1 := HandleCommand(master, conn, Ping, now, render);
            var r2 := HandleCommand(r1.store, conn, ReplConf("listening-port " + port), now, render);
            var r3 := HandleCommand(r2.store, conn, ReplConf("capa psync2"), now, render);
            var r4 := HandleCommand(r3.store, conn, Psync("?", "-1"), now, render);
            && Sent(r1.writes) == EncodeResponse(SimpleString("PONG"))
            && Sent(r2.writes) == EncodeResponse(SimpleString("OK"))
            && Sent(r3.writes) == EncodeResponse(SimpleString("OK"))
            && Sent(r4.writes) == EncodeResponse(SimpleString("FULLRESYNC " + master.config.masterReplid + " 0"))
                                  + EncodeResponse(RdbFile(EmptyRdbBytes()))
            && r4.store.replicas == master.replicas + [conn]
  {
    var r1 := HandleCommand(master, conn, Ping, now, render);
    var r2 := HandleCommand(r1.store, conn, ReplConf("listening-port " + port), now, render);
    var r3 := HandleCommand(r2.store, conn, ReplConf("capa psync2"), now, render);
    var r4 := HandleCommand(r3.store, conn, Psync("?", "-1"), now, render);
    SentOne(r1.writes);
    SentOne(r2.writes);
    SentOne(r3.writes);
    SentTwo(r4.writes);
  }

  /** The replica's side: against the replies a master writes, the
      handshake sends its four requests and leaves exactly what follows
      the snapshot unread. */
  lemma {:induction false} HandshakeCompletes(address: string, port: string, id: string, rdb: seq<byte>, rest: string)
    requires Port(address) == Ok(port) && NoChar(id, '\n') && |rdb| < USIZE_LIMIT
    ensures var reqs := HandshakeRequests(port);
            StartReplicate(address,
                           EncodeResponse(SimpleString("PONG")) + (EncodeResponse(SimpleString("OK"))
                           + (EncodeResponse(SimpleString("OK")) + (EncodeResponse(SimpleString("FULLRESYNC " + id + " 0"))
                           + (EncodeResponse(RdbFile(rdb)) + rest)))))
            == Ok((WriteRequest(reqs[0]) + WriteRequest(reqs[1]) + WriteRequest(reqs[2]) + WriteRequest(reqs[3]), rest))
  {
    var tail4 := EncodeResponse(RdbFile(rdb)) + rest;
    var tail3 := EncodeResponse(SimpleString("FULLRESYNC " + id + " 0")) + tail4;
    var tail2 := EncodeResponse(SimpleString("OK")) + tail3;
    var tail1 := EncodeResponse(SimpleString("OK")) + tail2;
    ExpectWord("PONG", tail1);
    ExpectWord("OK", tail2);
    ExpectWord("OK", tail3);
    ExpectFullResync(id, tail4);
    ExpectRdb(rdb, rest);
    StartReplicateSteps(address, port, EncodeResponse(SimpleString("PONG")) + tail1, tail1, tail2, tail3, tail4, rest);
  }

  /** `start_replicate` runs through when each of its five reads does. */
  lemma {:induction false} StartReplicateSteps(address: string, port: string, input: string,
                            in1: string, in2: string, in3: string, in4: string, in5: string)
    requires Port(address) == Ok(port)
    requires Expect(input, Some("PONG")) == Ok(in1) && Expect(in1, Some("OK")) == Ok(in2)
    requires Expect(in2, Some("OK")) == Ok(in3) && Expect(in3, None) == Ok(in4) && Expect(in4, None) == Ok(in5)
    ensures var reqs := HandshakeRequests(port);
            StartReplicate(address, input)
            == Ok((WriteRequest(reqs[0]) + WriteRequest(reqs[1]) + WriteRequest(reqs[2]) + WriteRequest(reqs[3]), in5))
  {
  }

  /** The `PONG` and `OK` replies pass the handshake's checks. */
  lemma {:induction false} ExpectWord(word: string, rest: string)
    requires word == "PONG" || word == "OK"
    ensures Expect(EncodeResponse(SimpleString(word)) + rest, Some(word)) == Ok(rest)
  {
    ExpectSimple(SimpleString(word), rest, Some(word));
  }

  lemma {:induction false} ExpectFullResync(id: string, rest: string)
    requires NoChar(id, '\n')
    ensures Expect(EncodeResponse(SimpleString("FULLRESYNC " + id + " 0")) + rest, None) == Ok(rest)
  {
    assert NoChar("FULLRESYNC " + id + " 0", '\n');
    ExpectSimple(SimpleString("FULLRESYNC " + id + " 0"), rest, None);
  }

  lemma {:induction false} ExpectRdb(rdb: seq<byte>, rest: string)
    requires |rdb| < USIZE_LIMIT
    ensures Expect(EncodeResponse(RdbFile(rdb)) + rest, None) == Ok(rest)
  {
    ReadResponseRdb(rdb, rest);
  }

  lemma {:induction false} ExpectSimple(r: ResponseType, rest: string, want: Option<string>)
    requires r.SimpleString? && NoChar(r.text, '\n')
    requires want.None? || want.value == r.text
    ensures Expect(EncodeResponse(r) + rest, want) == Ok(rest)
  {
    ReadResponseSimple(r, rest);
  }

  /** A simple reply other than the expected one fails the `assert_eq!`
      and panics; a simple error passes when its text is the expected one,
      since `read_response` returns the text of either kind. */
  lemma {:induction false} ExpectMismatch(reply: ResponseType, rest: string, want: string)
    requires reply.SimpleString? || reply.SimpleError?
    requires NoChar(reply.text, '\n')
    ensures Expect(EncodeResponse(reply) + rest, Some(want)) == if reply.text == want then Ok(rest) else Panic
  {
    ReadResponseSimple(reply, rest);
  }

  /** The handshake panics when `PING` is answered with anything but
      `PONG`. */
  lemma {:induction false} StartReplicateNoPong(address: string, reply: ResponseType, rest: string)
    requires reply.SimpleString? || reply.SimpleError?
    requires NoChar(reply.text, '\n') && reply.text != "PONG"
    ensures StartReplicate(address, EncodeResponse(reply) + rest) == Panic
  {
    ExpectMismatch(reply, rest, "PONG");
  }

  /** The handshake panics after `PONG` when the address has no port. */
  lemma {:induction false} StartReplicateNoPort(address: string, rest: string)
    requires NoChar(address, ':')
    ensures StartReplicate(address, EncodeResponse(SimpleString("PONG")) + rest) == Panic
  {
    ExpectWord("PONG", rest);
    PortPanics(address);
  }

  /** The handshake panics when the first `REPLCONF` is answered with
      anything but `OK`. */
  lemma {:induction false} StartReplicateFirstNotOk(address: string, port: string, reply: ResponseType, rest: string)
    requires Port(address) == Ok(port)
    requires reply.SimpleString? || reply.SimpleError?
    requires NoChar(reply.text, '\n') && reply.text != "OK"
    ensures StartReplicate(address, EncodeResponse(SimpleString("PONG")) + (EncodeResponse(reply) + rest)) == Panic
  {
    ExpectWord("PONG", EncodeResponse(reply) + rest);
    ExpectMismatch(reply, rest, "OK");
  }

  /** The handshake panics when the second `REPLCONF` is answered with
      anything but `OK`. */
  lemma {:induction false} StartReplicateSecondNotOk(address: string, port: string, reply: ResponseType, rest: string)
    requires Port(address) == Ok(port)
    requires reply.SimpleString? || reply.SimpleError?
    requires NoChar(reply.text, '\n') && reply.text != "OK"
    ensures StartReplicate(address, EncodeResponse(SimpleString("PONG"))
                                    + (EncodeResponse(SimpleString("OK")) + (EncodeResponse(reply) + rest))) == Panic
  {
    var tail2 := EncodeResponse(reply) + rest;
    var tail1 := EncodeResponse(SimpleString("OK")) + tail2;
    ExpectWord("PONG", tail1);
    ExpectWord("OK", tail2);
    ExpectMismatch(reply, rest, "OK");
  }

  lemma {:induction false} Regroup5(a: string, b: string, c: string, d: string, e: string, rest: string)
    ensures a + b + c + (d + e) + rest == a + (b + (c + (d + (e + rest))))
  {
  }

  lemma {:induction false} SentTwo(ws: seq<Write>)
    requires |ws| == 2
    ensures Sent(ws) == ws[0].bytes + ws[1].bytes
  {
    SentOne(ws[1..]);
  }

  lemma {:induction false} SentOne(ws: seq<Write>)
    requires |ws| == 1
    ensures Sent(ws) == ws[0].bytes
  {
    assert ws[1..] == [];
  }

  lemma {:induction false} SentConcat(a: seq<Write>, b: seq<Write>)
    ensures Sent(a + b) == Sent(a) + Sent(b)
  {
    if a == [] {
      assert a + b == b;
    } else {
      assert (a + b)[0] == a[0] && (a + b)[1..] == a[1..] + b;
      SentConcat(a[1..], b);
    }
  }
}
