/**
 Applying a server's config (backend/src/servers/service.ts:136-205 with
 servers/local.ts and servers/remote.ts): read the live peers, import the unknown
 ones, render every peer with an address, strip, sync.
 */
module Apply {
  import opened Wrappers
  import opened Text
  import opened Sorting
  import opened Net
  import opened DeviceStore
  import opened ServerStore
  import opened Status
  import opened PeerImport
  import opened Profile
  import opened WireGuard

  datatype ApplyError = Internal

  /** The device table, and the interface as it is live. */
  datatype World = World(table: Table, up: bool, live: seq<WgPeer>)

  // ---------------------------------------------------------------- rendering

  function DeviceName(row: DeviceRow): string {
    row.name
  }

  /** `listByServer`: the rows of the server, by name. */
  function ListByServer(rows: seq<DeviceRow>, serverId: nat): seq<DeviceRow> {
    SortByName(OfServer(rows, serverId), DeviceName)
  }

  function OfServer(rows: seq<DeviceRow>, serverId: nat): seq<DeviceRow> {
    if rows == [] then []
    else
      OfServer(rows[..|rows| - 1], serverId) +
      (if rows[|rows| - 1].serverId == serverId then [rows[|rows| - 1]] else [])
  }

  /** A peer with a key and an address of either kind is rendered. */
  predicate Rendered(row: DeviceRow) {
    row.kind == Peer && Truthy(row.publicKey) && (Truthy(row.tunnelAddress) || Truthy(row.allowedIps))
  }

  function PeerOf(row: DeviceRow): ServerPeer {
    ServerPeer(if row.publicKey.Some? then row.publicKey.value else "", row.tunnelAddress, row.allowedIps)
  }

  function RenderedOf(rows: seq<DeviceRow>): seq<DeviceRow> {
    if rows == [] then []
    else RenderedOf(rows[..|rows| - 1]) + (if Rendered(rows[|rows| - 1]) then [rows[|rows| - 1]] else [])
  }

  /** The rows a server's config is rendered from, in the order of its peers. */
  function RenderedRows(rows: seq<DeviceRow>, serverId: nat): seq<DeviceRow> {
    RenderedOf(ListByServer(rows, serverId))
  }

  function PeersOf(rows: seq<DeviceRow>): (r: seq<ServerPeer>)
    ensures |r| == |rows| && forall i :: 0 <= i < |r| ==> r[i] == PeerOf(rows[i])
  {
    seq(|rows|, i requires 0 <= i < |rows| => PeerOf(rows[i]))
  }

  /** `Number.parseInt(port, 10) || 51820` on the text after the first colon. */
  function ListenPort(endpoint: string): int {
    var parts := Split(endpoint, ':');
    if |parts| < 2 || Count(parts[1]) == 0 then 51820 else Count(parts[1])
  }

  function ConfigOf(server: ServerRow, rows: seq<DeviceRow>, address: string): ServerConfig {
    ServerConfig(server.privateKey, address, ListenPort(server.listenEndpoint),
                 PeersOf(RenderedRows(rows, server.id)), Some(DEFAULT_MTU), true)
  }

  /** `renderConfig`, which throws when the server's range does not parse. */
  function RenderConfig(server: ServerRow, rows: seq<DeviceRow>): Result<string, ApplyError> {
    match ServerAddress(server.addressRange)
    case Err(_) => Err(Internal)
    case Ok(address) => Ok(ConfigText(ConfigOf(server, rows, address)))
  }

  // ---------------------------------------------------------------- the port

  const DEFAULT_PORT := 51820

  /** An endpoint with a port: the number in front of whatever follows it, unless that is none or 0. */
  lemma ListenPortExact(host: string, rest: string)
    requires ':' !in host
    ensures ListenPort(host + ":" + rest) ==
            match ParseInt(Before(rest, ':'))
            case None => DEFAULT_PORT
            case Some(port) => if port == 0 then DEFAULT_PORT else port
  {
    hide ParseInt;
    SplitCat(host, rest, ':');
    assert host + [':'] + rest == host + ":" + rest;
    SplitHead(host, ':');
    SplitHead(rest, ':');
  }

  /** The port an endpoint was written with is the one that is used. */
  lemma ListenPortReads(host: string, port: int)
    requires ':' !in host && port != 0
    ensures ListenPort(host + ":" + IntText(port)) == port
  {
    hide ParseInt, ListenPort;
    ListenPortExact(host, IntText(port));
    ColonFree(port);
    SplitHead(IntText(port), ':');
    ParseIntText(port);
  }

  lemma ColonFree(n: int)
    ensures ':' !in IntText(n)
  {
    hide Decimal;
    DecimalDigits(if n < 0 then -n else n);
  }

  /** The default stands in exactly when there is no port, or none that `parseInt` reads, or 0. */
  lemma DefaultPortExactly(endpoint: string)
    ensures ListenPort(endpoint) == DEFAULT_PORT <==>
            || ':' !in endpoint
            || exists host, rest :: && ':' !in host && endpoint == host + ":" + rest
                                    && ParseInt(Before(rest, ':')) in {None, Some(0), Some(DEFAULT_PORT)}
  {
    hide ParseInt, ListenPort;
    if ':' in endpoint {
      var rest := CutAt(endpoint, ':');
      var host := Before(endpoint, ':');
      assert endpoint == host + ":" + rest;
      ListenPortExact(host, rest);
      if host', rest' :| ':' !in host' && endpoint == host' + ":" + rest'
                         && ParseInt(Before(rest', ':')) in {None, Some(0), Some(DEFAULT_PORT)} {
        ListenPortExact(host', rest');
      }
    } else {
      NoPort(endpoint);
    }
  }

  lemma NoPort(endpoint: string)
    requires ':' !in endpoint
    ensures ListenPort(endpoint) == DEFAULT_PORT
  {
    SplitHead(endpoint, ':');
  }

  // ---------------------------------------------------------------- the step

  function LiveStatuses(w: World, iface: WgInterface, now: int): seq<PeerStatus> {
    if w.up then ParseWgDump(PrintDump(iface, w.live), now) else []
  }

  /** The table after the import; `readOk` tells whether the live peers could be read at all. */
  function AfterRead(w: World, serverId: nat, iface: WgInterface, readOk: bool, now: int): Table {
    if !readOk then w.table
    else
      match ImportAll(w.table, serverId, LiveStatuses(w, iface, now))
      case Ok(done) => done.table
      case Err(_) => w.table
  }

  datatype Applied = Applied(world: World, ok: bool)

  /**
   One apply. `readOk` tells whether the live peers could be read; `syncOk` stands
   for everything outside the text that can fail: the connection, the file write,
   the command itself.
   */
  function ApplyStep(w: World, server: ServerRow, iface: WgInterface, readOk: bool, syncOk: bool, now: int): Applied {
    var table := AfterRead(w, server.id, iface, readOk, now);
    var failed := Applied(World(table, w.up, w.live), false);
    match RenderConfig(server, table.rows)
    case Err(_) => failed
    case Ok(text) =>
      match if syncOk then Synced(StripForSync(text)) else None
      case None => failed
      case Some(live) => Applied(World(table, true, live), true)
  }

  // ---------------------------------------------------------------- what the source's method does

  method ReadAndImport(devices: DeviceRepo, host: WgHost, serverId: nat, readOk: bool, now: int)
    requires devices.Valid()
    modifies devices
    ensures devices.State() == AfterRead(World(old(devices.State()), host.up, host.peers), serverId, host.iface,
            readOk, now)
  {
    hide PrintDump, ParseWgDump, TableOk;
    ImportExact(devices.State(), serverId, LiveStatuses(World(devices.State(), host.up, host.peers), host.iface, now));
    if readOk {
      var dump := host.ShowDump();
      var peers: seq<PeerStatus> := [];
      if dump.Some? {
        peers := ReadWgDump(dump.value, now);
      }
      var _ := ImportLivePeers(devices, serverId, peers);
    }
  }

  method ApplyServer(devices: DeviceRepo, servers: ServerRepo, host: WgHost, server: ServerRow,
                     readOk: bool, syncOk: bool, now: int) returns (ok: bool)
    requires devices.Valid()
    modifies devices, servers, host
    ensures var before := World(old(devices.State()), old(host.up), old(host.peers));
            var after := ApplyStep(before, server, host.iface, readOk, syncOk, now);
            && ok == after.ok
            && devices.State() == after.world.table && host.up == after.world.up && host.peers == after.world.live
    ensures RenderConfig(server, devices.rows).Ok? ==>
              servers.State() ==
                Servers(WithStatus(old(servers.rows), server.id, if ok then ServerStatus.Up else Down),
                    old(servers.nextId))
    ensures RenderConfig(server, devices.rows).Err? ==> servers.State() == old(servers.State())
  {
    hide Synced, ConfigText, StripForSync, ImportAll, ServerAddress, TableOk, RenderedRows, WithStatus, ParseWgDump,
         PrintDump;
    ReadAndImport(devices, host, server.id, readOk, now);
    var address := ServerAddress(server.addressRange);
    if address.Err? {
      return false;
    }
    var config := BuildServerConfig(ConfigOf(server, devices.rows, address.value));
    ok := false;
    if syncOk {
      ok := host.Load(StripForSync(config));
    }
    servers.SetStatus(server.id, if ok then ServerStatus.Up else Down);
  }
}
