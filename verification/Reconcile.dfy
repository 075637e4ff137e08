/**
 The reconciled view of a server's peers (backend/src/servers/peers.ts:94-126
 with the status query of servers/service.ts:208-219): import what is unknown,
 then one row for every tracked peer.
 */
module Reconcile {
  import opened Wrappers
  import opened Text
  import opened Sorting
  import opened Net
  import opened DeviceStore
  import opened Status
  import opened PeerImport
  import opened ServerStore
  import opened WireGuard
  import opened Apply
  import ApplyProofs
  import Rendering

  datatype ReconciledPeer = ReconciledPeer(
    deviceId: nat,
    name: string,
    management: Management,
    origin: Origin,
    publicKey: Option<string>,
    tunnelAddress: Option<string>,
    allowedIps: Option<string>,
    presentOnServer: bool,
    connected: bool,
    latestHandshake: Option<int>,
    endpoint: Option<string>,
    outOfRange: bool,
    hasPrivateKey: bool)

  datatype Reconciled = Reconciled(table: Table, live: bool, peers: seq<ReconciledPeer>)

  /** `new Map(...)` over the live peers: the last one with a key wins. */
  function LiveByKey(peers: seq<PeerStatus>, key: string): Option<PeerStatus> {
    if peers == [] then None
    else if peers[|peers| - 1].publicKey == key then Some(peers[|peers| - 1])
    else LiveByKey(peers[..|peers| - 1], key)
  }

  function FirstHost(tunnelAddress: Option<string>, allowedIps: Option<string>): Option<string> {
    if Truthy(tunnelAddress) then tunnelAddress
    else if !Truthy(allowedIps) then None
    else
      var first := Trim(Before(allowedIps.value, ','));
      if first == "" then None else Some(Before(first, '/'))
  }

  /** Whether the row's first host is outside the range; the test throws when the range does not parse. */
  function OutOfRange(row: DeviceRow, range: string): Result<bool, NetError> {
    var address := FirstHost(row.tunnelAddress, row.allowedIps);
    if !Truthy(address) then Ok(false)
    else
      match AddressInRange(address.value, range)
      case Ok(inside) => Ok(!inside)
      case Err(e) => Err(e)
  }

  function ViewRow(row: DeviceRow, status: Option<seq<PeerStatus>>, outOfRange: bool): ReconciledPeer {
    var lp := if Truthy(row.publicKey) && status.Some? then LiveByKey(status.value, row.publicKey.value) else None;
    ReconciledPeer(
      row.id, row.name, row.management, row.origin, row.publicKey, row.tunnelAddress, row.allowedIps,
      lp.Some?,
      lp.Some? && lp.value.connected,
      if lp.Some? then Some(lp.value.latestHandshake) else None,
      if lp.Some? then lp.value.endpoint else None,
      outOfRange,
      Truthy(row.privateKey))
  }

  function ViewRows(rows: seq<DeviceRow>, status: Option<seq<PeerStatus>>, range: string)
    : Result<seq<ReconciledPeer>, NetError>
  {
    if rows == [] then Ok([])
    else
      match ViewRows(rows[..|rows| - 1], status, range)
      case Err(e) => Err(e)
      case Ok(view) =>
        match OutOfRange(rows[|rows| - 1], range)
        case Err(e) => Err(e)
        case Ok(outside) => Ok(view + [ViewRow(rows[|rows| - 1], status, outside)])
  }

  function OnlyPeers(rows: seq<DeviceRow>): seq<DeviceRow> {
    if rows == [] then []
    else OnlyPeers(rows[..|rows| - 1]) + (if rows[|rows| - 1].kind == Peer then [rows[|rows| - 1]] else [])
  }

  function PeerRows(rows: seq<DeviceRow>, serverId: nat): seq<DeviceRow> {
    OnlyPeers(ListByServer(rows, serverId))
  }

  /** The table after the import; no live data, no import. */
  function Imported(t: Table, serverId: nat, status: Option<seq<PeerStatus>>): Table {
    match status
    case None => t
    case Some(peers) =>
      match ImportAll(t, serverId, peers)
      case Ok(done) => done.table
      case Err(_) => t
  }

  /** `status` is None when it is unknown; a server that is down reports no peers. */
  function ReconcileServer(t: Table, serverId: nat, range: string, status: Option<seq<PeerStatus>>)
    : Result<Reconciled, NetError>
  {
    var table := Imported(t, serverId, status);
    match ViewRows(PeerRows(table.rows, serverId), status, range)
    case Err(e) => Err(e)
    case Ok(view) => Ok(Reconciled(table, status.Some?, view))
  }

  // ---------------------------------------------------------------- row by row

  /** The last live peer with the key. */
  predicate LastWith(peers: seq<PeerStatus>, i: int, key: string) {
    0 <= i < |peers| && peers[i].publicKey == key && forall j :: i < j < |peers| ==> peers[j].publicKey != key
  }

  lemma {:induction false} LiveByKeyExact(peers: seq<PeerStatus>, key: string)
    ensures LiveByKey(peers, key).Some? <==> exists i :: 0 <= i < |peers| && peers[i].publicKey == key
    ensures LiveByKey(peers, key).Some? ==>
            exists i :: LastWith(peers, i, key) && LiveByKey(peers, key).value == peers[i]
  {
    if peers != [] {
      var init := peers[..|peers| - 1];
      LiveByKeyExact(init, key);
      assert peers == init + [peers[|peers| - 1]];
      if peers[|peers| - 1].publicKey == key {
        assert LastWith(peers, |peers| - 1, key);
      } else {
        if i :| 0 <= i < |peers| && peers[i].publicKey == key {
          assert init[i] == peers[i];
        }
        if LiveByKey(init, key).Some? {
          var i :| LastWith(init, i, key) && LiveByKey(init, key).value == init[i];
          assert LastWith(peers, i, key) && peers[i] == init[i];
        }
      }
    }
  }

  lemma {:induction false} ViewRowsExact(rows: seq<DeviceRow>, status: Option<seq<PeerStatus>>, range: string)
    requires ParseCidr(range).Ok?
    ensures ViewRows(rows, status, range).Ok? && |ViewRows(rows, status, range).value| == |rows|
    ensures forall i :: 0 <= i < |rows| ==>
              && OutOfRange(rows[i], range).Ok?
              && ViewRows(rows, status, range).value[i] == ViewRow(rows[i], status, OutOfRange(rows[i], range).value)
  {
    hide ParseCidr, ViewRow, FirstHost;
    if rows != [] {
      ViewRowsExact(rows[..|rows| - 1], status, range);
      OutOfRangeOk(rows[|rows| - 1], range);
    }
  }

  lemma OutOfRangeOk(row: DeviceRow, range: string)
    requires ParseCidr(range).Ok?
    ensures OutOfRange(row, range).Ok?
  {
    hide ParseCidr, IpToIntSafe, FirstHost;
  }

  lemma {:induction false} OnlyPeersMember(rows: seq<DeviceRow>, row: DeviceRow)
    ensures row in OnlyPeers(rows) <==> row in rows && row.kind == Peer
  {
    if rows != [] {
      OnlyPeersMember(rows[..|rows| - 1], row);
      assert rows == rows[..|rows| - 1] + [rows[|rows| - 1]];
    }
  }

  lemma {:induction false} OnlyPeersNoRepeat(rows: seq<DeviceRow>)
    requires NoRepeat(rows)
    ensures NoRepeat(OnlyPeers(rows))
  {
    if rows != [] {
      var init, last := rows[..|rows| - 1], rows[|rows| - 1];
      OnlyPeersNoRepeat(init);
      OnlyPeersMember(init, last);
      assert last !in init;
    }
  }

  lemma {:induction false} OfServerNoRepeat(rows: seq<DeviceRow>, serverId: nat)
    requires NoRepeat(rows)
    ensures NoRepeat(OfServer(rows, serverId))
  {
    if rows != [] {
      var init, last := rows[..|rows| - 1], rows[|rows| - 1];
      OfServerNoRepeat(init, serverId);
      Rendering.OfServerMember(init, serverId, last);
      assert last !in init;
    }
  }

  /** The listed rows are the server's peers, each once. */
  lemma PeerRowsExact(t: Table, serverId: nat)
    requires TableOk(t)
    ensures NoRepeat(PeerRows(t.rows, serverId))
    ensures forall row :: row in PeerRows(t.rows, serverId) <==>
            row in t.rows && row.serverId == serverId && row.kind == Peer
  {
    assert NoRepeat(t.rows) by { ApartNoRepeat(t); }
    OfServerNoRepeat(t.rows, serverId);
    SortKeepsNoRepeat(OfServer(t.rows, serverId), DeviceName);
    OnlyPeersNoRepeat(ListByServer(t.rows, serverId));
    forall row
      ensures row in PeerRows(t.rows, serverId) <==> row in t.rows && row.serverId == serverId && row.kind == Peer
    {
      OnlyPeersMember(ListByServer(t.rows, serverId), row);
      SortMember(OfServer(t.rows, serverId), DeviceName, row);
      Rendering.OfServerMember(t.rows, serverId, row);
    }
  }

  lemma ApartNoRepeat(t: Table)
    requires TableOk(t)
    ensures NoRepeat(t.rows)
  {
    hide RowOk;
    forall i, j | 0 <= i < j < |t.rows|
      ensures t.rows[i] != t.rows[j]
    {
      assert Apart(t.rows[i], t.rows[j]);
    }
  }

  // ---------------------------------------------------------------- the view as a whole

  /** The first host an address text names lies in the block. */
  predicate NamesInside(text: string, c: Cidr)
    requires c.prefix <= 32
  {
    var n := IpToIntSafe(Split(text, '/')[0]);
    n.Some? && InBlock(n.value, c)
  }

  /** The row's address, or else the first part of its AllowedIPs, is one and lies outside the block. */
  predicate Outside(row: DeviceRow, c: Cidr)
    requires c.prefix <= 32
  {
    if Truthy(row.tunnelAddress) then !NamesInside(row.tunnelAddress.value, c)
    else
      row.allowedIps.Some? &&
      var first := Trim(Split(row.allowedIps.value, ',')[0]);
      Split(first, '/')[0] != "" && !NamesInside(first, c)
  }

  /** A row of the view has the columns of its device, and tells whether there is a private key. */
  predicate ShowsDevice(view: ReconciledPeer, row: DeviceRow) {
    && view.deviceId == row.id && view.name == row.name
    && view.management == row.management && view.origin == row.origin
    && view.publicKey == row.publicKey && view.tunnelAddress == row.tunnelAddress
    && view.allowedIps == row.allowedIps
    && (view.hasPrivateKey <==> row.privateKey.Some? && row.privateKey.value != "")
  }

  /** The view lists the server's peers, each once, with the columns of its row and where its address stands. */
  predicate ListsPeers(view: seq<ReconciledPeer>, rows: seq<DeviceRow>, c: Cidr)
    requires c.prefix <= 32
  {
    |view| == |rows| && forall i :: 0 <= i < |rows| ==>
        ShowsDevice(view[i], rows[i]) && (view[i].outOfRange <==> Outside(rows[i], c))
  }

  lemma OutsideExact(row: DeviceRow, range: string)
    requires ParseCidr(range).Ok?
    ensures OutOfRange(row, range) == Ok(Outside(row, ParseCidr(range).value))
  {
    hide ParseCidr, IpToIntSafe, InBlock, Trim, Split, AddressInRange;
    OutOfRangeExact(row, range);
    if Truthy(row.tunnelAddress) {
      SplitHead(row.tunnelAddress.value, '/');
    } else if row.allowedIps.Some? {
      SplitHead(row.allowedIps.value, ',');
      var first := Trim(Before(row.allowedIps.value, ','));
      SplitHead(first, '/');
      SplitHead(Before(first, '/'), '/');
      assert '/' !in Before(first, '/');
      NothingInside();
      NothingFirst();
    }
  }

  lemma NothingInside()
    ensures Before("", '/') == "" && Split("", '/') == [""]
  {
  }

  lemma NothingFirst()
    ensures Split("", ',') == [""] && Trim("") == ""
  {
  }

  lemma ReconcileLists(t: Table, serverId: nat, range: string, status: Option<seq<PeerStatus>>)
    requires TableOk(t) && ParseCidr(range).Ok?
    ensures ReconcileServer(t, serverId, range, status).Ok?
    ensures var r := ReconcileServer(t, serverId, range, status).value;
            && TableOk(r.table) && t.rows <= r.table.rows && r.live == status.Some?
            && (status.None? ==> r.table == t)
            && ListsPeers(r.peers, PeerRows(r.table.rows, serverId), ParseCidr(range).value)
            && forall i :: 0 <= i < |r.peers| ==>
                 var row := PeerRows(r.table.rows, serverId)[i];
                 OutOfRange(row, range).Ok? && r.peers[i] == ViewRow(row, status, OutOfRange(row, range).value)
  {
    hide ParseCidr, TableOk, ImportAll, OutOfRange, Outside, PeerRows, LiveByKey;
    if status.Some? {
      ImportExact(t, serverId, status.value);
    }
    var rows := PeerRows(Imported(t, serverId, status).rows, serverId);
    ViewRowsExact(rows, status, range);
    forall i | 0 <= i < |rows|
      ensures OutOfRange(rows[i], range) == Ok(Outside(rows[i], ParseCidr(range).value))
    {
      OutsideExact(rows[i], range);
    }
  }

  /** Exactly one index of a view shows the key. */
  ghost predicate OneRowFor(view: seq<ReconciledPeer>, key: string) {
    exists i :: 0 <= i < |view| && view[i].publicKey == Some(key)
                && forall j :: 0 <= j < |view| && view[j].publicKey == Some(key) ==> j == i
  }

  lemma OneRowPerKey(t: Table, serverId: nat, key: string)
    requires TableOk(t) && Tracks(t.rows, serverId, key)
    ensures var rows := PeerRows(t.rows, serverId);
            exists i :: 0 <= i < |rows| && rows[i].publicKey == Some(key)
                     && forall j :: 0 <= j < |rows| && rows[j].publicKey == Some(key) ==> j == i
  {
    hide PeerRows, AddressText;
    PeerRowsExact(t, serverId);
    var rows := PeerRows(t.rows, serverId);
    var k :| 0 <= k < |t.rows| && HasKey(t.rows[k], serverId, key);
    assert RowOk(t.rows[k]);
    assert t.rows[k] in rows;
    var i :| 0 <= i < |rows| && rows[i] == t.rows[k];
    forall j | 0 <= j < |rows| && rows[j].publicKey == Some(key)
      ensures j == i
    {
      assert rows[j] in rows;
      ApplyProofs.SameKeySameRow(t, rows[j], rows[i]);
    }
  }

  /** The live columns of a present row are those of its live peer. */
  predicate ShowsLive(row: ReconciledPeer, p: PeerStatus) {
    row.connected == p.connected && row.latestHandshake == Some(p.latestHandshake) && row.endpoint == p.endpoint
  }

  /** Present exactly when the key is live; then the state is the live peer's, else there is none. */
  ghost predicate RowShows(row: ReconciledPeer, peers: seq<PeerStatus>) {
    && (row.presentOnServer <==> row.publicKey.Some? && row.publicKey.value in LiveKeys(peers))
    && (!row.presentOnServer ==> !row.connected && row.latestHandshake == None && row.endpoint == None)
    && (row.presentOnServer ==> exists k :: LastWith(peers, k, row.publicKey.value) && ShowsLive(row, peers[k]))
  }

  lemma ViewRowShows(row: DeviceRow, peers: seq<PeerStatus>, outOfRange: bool)
    ensures RowShows(ViewRow(row, Some(peers), outOfRange), peers)
  {
    hide LiveByKey;
    if Truthy(row.publicKey) {
      LiveByKeyExact(peers, row.publicKey.value);
    }
  }

  /** A row is out of range exactly when its first host names no address of the server's block. */
  lemma OutOfRangeExact(row: DeviceRow, range: string)
    requires ParseCidr(range).Ok?
    ensures var host := FirstHost(row.tunnelAddress, row.allowedIps);
            OutOfRange(row, range) ==
            Ok(Truthy(host) && !(&& IpToIntSafe(Before(host.value, '/')).Some?
                                 && InBlock(IpToIntSafe(Before(host.value, '/')).value, ParseCidr(range).value)))
  {
    hide FirstHost, ParseCidr, IpToIntSafe, InBlock;
    OutOfRangeOk(row, range);
    var host := FirstHost(row.tunnelAddress, row.allowedIps);
    if Truthy(host) {
      AddressInRangeExact(host.value, range);
    }
  }

  /** A listed row that has an address to look at. */
  predicate HasHost(row: DeviceRow) {
    Truthy(FirstHost(row.tunnelAddress, row.allowedIps))
  }

  /** On a malformed range the view throws at the first row that has an address to look at. */
  lemma {:induction false} ViewRowsFailExactly(rows: seq<DeviceRow>, status: Option<seq<PeerStatus>>, range: string)
    requires ParseCidr(range).Err?
    ensures ViewRows(rows, status, range).Err? <==> exists i :: 0 <= i < |rows| && HasHost(rows[i])
  {
    hide ParseCidr, ViewRow, FirstHost, IpToIntSafe;
    if rows != [] {
      var init := rows[..|rows| - 1];
      ViewRowsFailExactly(init, status, range);
      if i :| 0 <= i < |rows| && HasHost(rows[i]) && i < |init| {
        assert init[i] == rows[i];
      }
    }
  }

  /** Reconciling fails exactly when the stored range does not parse and some listed peer has an address. */
  lemma ReconcileFailsExactly(t: Table, serverId: nat, range: string, status: Option<seq<PeerStatus>>)
    requires TableOk(t)
    ensures ReconcileServer(t, serverId, range, status).Err? <==>
            && ParseCidr(range).Err?
            && exists row :: && row in Imported(t, serverId, status).rows && row.serverId == serverId
                             && row.kind == Peer
                             && HasHost(row)
  {
    hide ParseCidr, TableOk, ImportAll, PeerRows, ViewRows, FirstHost;
    var table := Imported(t, serverId, status);
    if status.Some? {
      ImportExact(t, serverId, status.value);
    }
    var rows := PeerRows(table.rows, serverId);
    PeerRowsExact(table, serverId);
    if ParseCidr(range).Ok? {
      ViewRowsExact(rows, status, range);
    } else {
      ViewRowsFailExactly(rows, status, range);
      assert (exists i :: 0 <= i < |rows| && HasHost(rows[i])) <==> exists row :: row in rows && HasHost(row);
    }
  }

  /**
   With live data: every non-empty live key has exactly one row, and a row is
   present exactly when its key is live, showing then the state of the last live
   peer with that key.
   */
  lemma LiveViewExact(t: Table, serverId: nat, range: string, peers: seq<PeerStatus>)
    requires TableOk(t) && ParseCidr(range).Ok?
    ensures ReconcileServer(t, serverId, range, Some(peers)).Ok?
    ensures var r := ReconcileServer(t, serverId, range, Some(peers)).value;
            && r.live
            && (forall key :: key in LiveKeys(peers) ==> OneRowFor(r.peers, key))
            && (forall i :: 0 <= i < |r.peers| ==> RowShows(r.peers[i], peers))
  {
    hide ParseCidr, TableOk, ImportAll, OutOfRange, PeerRows, Keys, LiveByKey, Tracks, RowShows;
    ReconcileLists(t, serverId, range, Some(peers));
    ImportExact(t, serverId, peers);
    var r := ReconcileServer(t, serverId, range, Some(peers)).value;
    var rows := PeerRows(r.table.rows, serverId);
    forall key | key in LiveKeys(peers)
      ensures OneRowFor(r.peers, key)
    {
      TracksIsKey(r.table.rows, serverId, key);
      OneRowPerKey(r.table, serverId, key);
      var i :| 0 <= i < |rows| && rows[i].publicKey == Some(key)
               && forall j :: 0 <= j < |rows| && rows[j].publicKey == Some(key) ==> j == i;
      assert r.peers[i].publicKey == Some(key);
    }
    forall i | 0 <= i < |r.peers|
      ensures RowShows(r.peers[i], peers)
    {
      ViewRowShows(rows[i], peers, OutOfRange(rows[i], range).value);
    }
  }

  /** Without live data no row is present or connected, and every tracked peer is still listed once. */
  lemma UnknownViewExact(t: Table, serverId: nat, range: string)
    requires TableOk(t) && ParseCidr(range).Ok?
    ensures ReconcileServer(t, serverId, range, None).Ok?
    ensures var r := ReconcileServer(t, serverId, range, None).value;
            && !r.live && r.table == t
            && (forall i :: 0 <= i < |r.peers| ==> !r.peers[i].presentOnServer && !r.peers[i].connected)
            && (forall key :: Tracks(t.rows, serverId, key) ==> OneRowFor(r.peers, key))
  {
    hide ParseCidr, TableOk, ImportAll, OutOfRange, PeerRows, Tracks;
    ReconcileLists(t, serverId, range, None);
    var r := ReconcileServer(t, serverId, range, None).value;
    var rows := PeerRows(t.rows, serverId);
    forall key | Tracks(t.rows, serverId, key)
      ensures OneRowFor(r.peers, key)
    {
      OneRowPerKey(t, serverId, key);
      var i :| 0 <= i < |rows| && rows[i].publicKey == Some(key)
               && forall j :: 0 <= j < |rows| && rows[j].publicKey == Some(key) ==> j == i;
      assert r.peers[i].publicKey == Some(key);
    }
  }

  // ---------------------------------------------------------------- the source's method

  /**
   What became of `wg show`: a server that cannot be reached throws; a command
   that fails, for whatever reason, passes for an interface that is down.
   */
  datatype Query = Unreachable | ShowFailed | Shown

  /** A local server is always reached: its `wg show` can only fail. */
  predicate Possible(query: Query, location: Location) {
    location == Local ==> query != Unreachable
  }

  /** `ServerService.status`: records what it saw; an unreachable server is unknown. */
  method QueryStatus(servers: ServerRepo, host: WgHost, server: ServerRow, query: Query, now: int)
    returns (status: Option<seq<PeerStatus>>)
    requires Possible(query, server.location)
    modifies servers
    ensures status.None? <==> query == Unreachable
    ensures status.None? ==> server.location == Remote
    ensures status.Some? ==>
              status.value ==
              if query == Shown && host.up then ParseWgDump(PrintDump(host.iface, host.peers), now) else []
    ensures servers.State() ==
            Servers(WithStatus(old(servers.rows), server.id,
                               if status.None? then ServerStatus.Unknown
                               else if query == Shown && host.up then ServerStatus.Up
                               else Down),
                    old(servers.nextId))
  {
    hide ParseWgDump, PrintDump, WithStatus;
    if query == Unreachable {
      servers.SetStatus(server.id, ServerStatus.Unknown);
      return None;
    }
    var dump: Option<string> := None;
    if query == Shown {
      dump := host.ShowDump();
    }
    if dump.None? {
      servers.SetStatus(server.id, Down);
      return Some([]);
    }
    var peers := ReadWgDump(dump.value, now);
    servers.SetStatus(server.id, ServerStatus.Up);
    status := Some(peers);
  }

  method ReconcilePeers(devices: DeviceRepo, serverId: nat, range: string, status: Option<seq<PeerStatus>>)
    returns (r: Result<Reconciled, NetError>)
    requires devices.Valid()
    modifies devices
    ensures r == ReconcileServer(old(devices.State()), serverId, range, status)
    ensures devices.State() == Imported(old(devices.State()), serverId, status)
  {
    hide ImportAll, TableOk, ViewRows, PeerRows;
    if status.Some? {
      ImportExact(devices.State(), serverId, status.value);
      var _ := ImportLivePeers(devices, serverId, status.value);
    }
    var view := ViewRows(PeerRows(devices.rows, serverId), status, range);
    match view
    case Ok(peers) => r := Ok(Reconciled(Table(devices.rows, devices.nextId, devices.refs), status.Some?, peers));
    case Err(e) => r := Err(e);
  }
}
