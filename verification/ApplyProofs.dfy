/**
 What an apply keeps, drops and repeats: which live peers survive it and with
 which AllowedIPs, when it succeeds at all, and that doing it again changes nothing.
 */
module ApplyProofs {
  import opened Wrappers
  import opened Text
  import opened Sorting
  import opened Net
  import opened DeviceStore
  import opened ServerStore
  import opened Status
  import opened PeerImport
  import opened Profile
  import opened WireGuard
  import opened Apply
  import opened Rendering

  // ---------------------------------------------------------------- the setting

  /** The interface shows nothing when it is down, and otherwise what the kernel prints. */
  predicate WorldOk(w: World, iface: WgInterface) {
    TableOk(w.table) && InterfacePrintable(iface) && (!w.up ==> w.live == []) && KernelOk(w.live)
  }

  /** What the results below ask of the state before an apply; `Runs` shows that every run keeps it. */
  predicate Ready(w: World, server: ServerRow, iface: WgInterface) {
    WorldOk(w, iface) && CleanRows(w.table.rows) && KeyOk(server.privateKey)
  }

  // ---------------------------------------------------------------- reading and importing

  lemma StatusesExact(w: World, iface: WgInterface, now: int)
    requires WorldOk(w, iface)
    ensures LiveStatuses(w, iface, now) == StatusesOf(w.live, now)
  {
    hide ParseWgDump, PrintDump, TableOk, KeyOk, AllPrinted, KernelApart, PeerPrintable;
    if w.up {
      forall i | 0 <= i < |w.live|
        ensures PeerPrintable(w.live[i])
      {
        assert Kernel(w.live[i]);
      }
      DumpRoundTrip(iface, w.live, now);
    }
  }

  /** A live peer as the dump shows it. */
  predicate KernelStatus(p: PeerStatus) {
    KeyOk(p.publicKey) && AllPrinted(ShownEntries(p.allowedIps))
  }

  lemma StatusesKernel(live: seq<WgPeer>, now: int)
    requires KernelOk(live)
    ensures forall i :: 0 <= i < |live| ==> KernelStatus(StatusesOf(live, now)[i])
  {
    hide KeyOk, AllPrinted, KernelApart, PeerPrintable;
    forall i | 0 <= i < |live|
      ensures KernelStatus(StatusesOf(live, now)[i])
    {
      assert Kernel(live[i]);
    }
  }

  /** A printed entry always has its mask. */
  lemma BareNotPrinted(entry: string)
    requires HostText(entry) && IpToIntSafe(entry).Some?
    ensures Normal(entry) != entry
  {
    hide IpToIntSafe, ParseCidr, IntToIp;
    HostTextIsAddress(entry);
    var n := IpToIntSafe(entry).value;
    HostCidrParses(entry, n);
    ParsedAddressChars(entry);
    ThirtyTwo();
    assert Normal(entry) == IntToIp(n) + "/32";
    assert (IntToIp(n) + "/32")[|IntToIp(n)|] == '/';
  }

  /** The single host of an entry the kernel prints is that entry without its mask. */
  lemma PrintedHost(entry: string, host: string)
    requires Printed(entry) && HostText(host)
    requires Split(entry, '/')[0] == host && (|Split(entry, '/')| == 1 || Split(entry, '/')[1] == "32")
    ensures entry == host + "/32" && IpToIntSafe(host).Some?
  {
    hide IpToIntSafe, Split, HostText, MaskOk, Normal;
    var parts := Split(entry, '/');
    HostTextIsAddress(host);
    JoinSplit(entry, '/');
    if |parts| == 1 {
      assert entry == host;
      BareNotPrinted(entry);
    } else {
      assert parts == [host, "32"];
      assert Join(parts, '/') == host + ['/'] + "32" by { JoinTwo(host, "32"); }
      assert host + ['/'] + "32" == host + "/32";
    }
  }

  lemma JoinTwo(a: string, b: string)
    ensures Join([a, b], '/') == a + ['/'] + b
  {
    assert [a, b][1..] == [b];
  }

  /** How an import reads what the kernel prints. */
  lemma KernelIpsRead(allowedIps: string)
    requires AllPrinted(ShownEntries(allowedIps))
    ensures BlankIps(allowedIps) <==> allowedIps == "(none)"
    ensures Trim(allowedIps) == allowedIps
    ensures allowedIps != "(none)" && SingleHost(allowedIps).Some? ==>
              var host := SingleHost(allowedIps).value;
              allowedIps == host + "/32" && IpToIntSafe(host).Some? && NoSpace(host)
  {
    hide IpToIntSafe, HostText, Printed, NoSpace, Split, Trim;
    if allowedIps == "(none)" {
      NoneTrims();
    } else {
      ShownClaims(allowedIps);
      SpacelessTrims(allowedIps);
      var entries := ShownEntries(allowedIps);
      EntriesPrinted(allowedIps);
      if SingleHost(allowedIps).Some? {
        var host := SingleHost(allowedIps).value;
        JoinSplit(allowedIps, ',');
        assert entries == [entries[0]] && allowedIps == entries[0];
        PrintedHost(entries[0], host);
        HostTextSpaceless(host);
      }
    }
  }

  lemma NoneTrims()
    ensures Trim("(none)") == "(none)"
  {
    TrimSolid("(none)");
  }

  lemma SpacelessTrims(s: string)
    requires NoSpace(s)
    ensures Trim(s) == s
  {
    TrimSolid(s);
  }

  lemma EntriesPrinted(allowedIps: string)
    requires AllPrinted(ShownEntries(allowedIps)) && allowedIps != "(none)"
    ensures Entries(allowedIps) == ShownEntries(allowedIps)
  {
    hide EntryOk, Normal, Trim, Split;
    var entries := ShownEntries(allowedIps);
    forall i | 0 <= i < |entries|
      ensures Trim(entries[i]) == entries[i] && entries[i] != ""
    {
      assert Printed(entries[i]);
      SpacelessTrims(entries[i]);
    }
    assert TrimAll(entries) == entries;
    NonBlankKeeps(entries);
  }

  /** What one import adds: clean rows, none of them broken. */
  predicate CleanAddition(before: seq<DeviceRow>, after: seq<DeviceRow>, serverId: nat) {
    before <= after && forall i :: |before| <= i < |after| ==> CleanRow(after[i]) && !Broken(after[i], serverId)
  }

  lemma ImportOneClean(was: Import, serverId: nat, p: PeerStatus)
    requires KernelStatus(p) && ImportOne(was, serverId, p).Ok?
    ensures CleanAddition(was.table.rows, ImportOne(was, serverId, p).value.table.rows, serverId)
  {
    hide SingleHost, Trim, UsedAddresses, Tracks, NoSpace, BlankIps, KeyOk, AllPrinted, IpToIntSafe, Clashes, Unfit,
         ShownEntries;
    if !Skipped(was.table.rows, serverId, p) {
      KernelIpsRead(p.allowedIps);
      if SingleHost(p.allowedIps).Some? {
        SpacelessFits(SingleHost(p.allowedIps).value);
      }
    }
  }

  lemma SpacelessFits(s: string)
    ensures NoSpace(s) ==> !Unfit(s)
  {
  }

  lemma {:induction false} ImportAllClean(t: Table, serverId: nat, peers: seq<PeerStatus>)
    requires forall i :: 0 <= i < |peers| ==> KernelStatus(peers[i])
    ensures ImportAll(t, serverId, peers).Ok? ==>
              CleanAddition(t.rows, ImportAll(t, serverId, peers).value.table.rows, serverId)
    decreases |peers|
  {
    hide ImportOne, KernelStatus, CleanRow, Broken;
    if peers != [] {
      ImportAllClean(t, serverId, peers[..|peers| - 1]);
      if ImportAll(t, serverId, peers).Ok? {
        ImportOneClean(ImportAll(t, serverId, peers[..|peers| - 1]).value, serverId, peers[|peers| - 1]);
      }
    }
  }

  lemma CleanAdditionClean(before: seq<DeviceRow>, after: seq<DeviceRow>, serverId: nat)
    requires CleanRows(before) && CleanAddition(before, after, serverId)
    ensures CleanRows(after)
    ensures AnyBroken(after, serverId) <==> AnyBroken(before, serverId)
  {
    hide CleanRow, Broken;
    assert forall i :: 0 <= i < |before| ==> after[i] == before[i];
  }

  /** The table an apply renders from: the old rows, then clean rows for what was imported. */
  lemma AfterReadExact(w: World, serverId: nat, iface: WgInterface, readOk: bool, now: int)
    requires WorldOk(w, iface)
    ensures var t := AfterRead(w, serverId, iface, readOk, now);
            TableOk(t) && CleanAddition(w.table.rows, t.rows, serverId)
    ensures readOk ==> ImportAll(w.table, serverId, StatusesOf(w.live, now)).Ok?
    ensures AfterRead(w, serverId, iface, readOk, now) ==
            if readOk then ImportAll(w.table, serverId, StatusesOf(w.live, now)).value.table else w.table
  {
    hide TableOk, ImportAll, LiveStatuses, CleanRow, Broken, KernelOk, KernelStatus;
    StatusesExact(w, iface, now);
    StatusesKernel(w.live, now);
    ImportExact(w.table, serverId, StatusesOf(w.live, now));
    ImportAllClean(w.table, serverId, StatusesOf(w.live, now));
  }

  // ---------------------------------------------------------------- when an apply succeeds

  /**
   An apply whose environment does not fail succeeds exactly when the range
   parses, the port is in range, and no address the table renders for this
   server holds white space that `wg` does not skip.
   */
  lemma ApplySucceedsExactly(w: World, server: ServerRow, iface: WgInterface, readOk: bool, syncOk: bool, now: int)
    requires Ready(w, server, iface)
    ensures ApplyStep(w, server, iface, readOk, syncOk, now).ok <==>
            syncOk && ParseCidr(server.addressRange).Ok? && !WgRefuses(server, w.table.rows)
    ensures var after := ApplyStep(w, server, iface, readOk, syncOk, now);
            && after.world.table == AfterRead(w, server.id, iface, readOk, now)
            && TableOk(after.world.table) && CleanRows(after.world.table.rows)
            && (after.ok ==> after.world.up && after.world.live == RenderedLive(after.world.table, server.id))
            && (after.ok ==> !AnyBroken(after.world.table.rows, server.id))
            && (!after.ok ==> after.world.live == w.live && after.world.up == w.up)
  {
    hide TableOk, AfterRead, Synced, ConfigOf, ConfigText, StripForSync, ParseCidr, CleanRow, Broken, CidrText,
         RenderedRows, RenderedLive, ImportAll, StatusesOf, CleanAddition, KernelOk, KeyOk, PortOk, ListenPort,
         InterfacePrintable;
    var t := AfterRead(w, server.id, iface, readOk, now);
    AfterReadExact(w, server.id, iface, readOk, now);
    CleanAdditionClean(w.table.rows, t.rows, server.id);
    var address := ServerAddress(server.addressRange);
    if address.Ok? {
      AddressOneLine(server.addressRange);
      SyncAccepts(server, t, address.value);
    }
  }

  /** For an endpoint written with a port: that port has to be one, whatever it is. */
  lemma ApplyOnPort(w: World, server: ServerRow, iface: WgInterface, readOk: bool, syncOk: bool, now: int,
                    host: string, port: int)
    requires Ready(w, server, iface)
    requires ':' !in host && port != 0 && server.listenEndpoint == host + ":" + IntText(port)
    ensures ApplyStep(w, server, iface, readOk, syncOk, now).ok <==>
            && syncOk && ParseCidr(server.addressRange).Ok? && 1 <= port <= 65535
            && !AnyBroken(w.table.rows, server.id)
  {
    hide ApplyStep, WorldOk, CleanRow, KeyOk, ParseCidr, AnyBroken, ListenPort, IntText;
    ApplySucceedsExactly(w, server, iface, readOk, syncOk, now);
    ListenPortReads(host, port);
  }

  // ---------------------------------------------------------------- who is live afterwards

  /** Some live peer has this key. */
  predicate IsLive(live: seq<WgPeer>, key: string) {
    exists j :: 0 <= j < |live| && live[j].publicKey == key
  }

  /** Some row renders this key for the server. */
  predicate IsRendered(rows: seq<DeviceRow>, serverId: nat, key: string) {
    exists row :: row in rows && row.serverId == serverId && Rendered(row) && row.publicKey == Some(key)
  }

  lemma SameKeySameRow(t: Table, a: DeviceRow, b: DeviceRow)
    requires TableOk(t) && a in t.rows && b in t.rows
    requires a.serverId == b.serverId && a.publicKey.Some? && a.publicKey == b.publicKey
    ensures a == b
  {
    hide RowOk, RefsKnown;
    var i :| 0 <= i < |t.rows| && t.rows[i] == a;
    var j :| 0 <= j < |t.rows| && t.rows[j] == b;
  }

  /**
   After a successful apply a key is live exactly when a rendered row has it, and
   the peer shows what its row claims less what a row listed after it claims too.
   */
  lemma LiveAfter(t: Table, serverId: nat, key: string)
    requires TableOk(t) && CleanRows(t.rows)
    ensures var live, rr := RenderedLive(t, serverId), RenderedRows(t.rows, serverId);
            && |live| == |rr|
            && (IsLive(live, key) <==> IsRendered(t.rows, serverId, key))
            && forall row, j ::
                 row in t.rows && HasKey(row, serverId, key) && 0 <= j < |live| && live[j].publicKey == key ==>
                 rr[j] == row && live[j].allowedIps == ShownIps(RowsIps(rr), j)
  {
    hide RenderedRows, RenderedLive, ShownIps, Rendered, CleanRow, TableOk, RowIps;
    var live, rr := RenderedLive(t, serverId), RenderedRows(t.rows, serverId);
    RenderedRowsExact(t, serverId);
    RenderedLiveExact(t, serverId);
    if j :| 0 <= j < |live| && live[j].publicKey == key {
      assert rr[j] in rr;
    }
    if row :| row in t.rows && row.serverId == serverId && Rendered(row) && row.publicKey == Some(key) {
      var j :| 0 <= j < |rr| && rr[j] == row;
      assert live[j].publicKey == key;
    }
    forall row, j | row in t.rows && HasKey(row, serverId, key) && 0 <= j < |live| && live[j].publicKey == key
      ensures rr[j] == row
    {
      assert rr[j] in rr;
      SameKeySameRow(t, rr[j], row);
    }
  }

  // ---------------------------------------------------------------- the row of an imported peer

  /** A row that renders an imported live peer just as it was. */
  predicate RendersPeer(row: DeviceRow, serverId: nat, p: WgPeer) {
    && HasKey(row, serverId, p.publicKey) && row.name == ImportedName(p.publicKey)
    && (if p.allowedIps == "(none)" then !Rendered(row) else Rendered(row) && RenderedIps(row) == Some(p.allowedIps))
  }

  lemma FaithfulRenders(row: DeviceRow, serverId: nat, p: WgPeer, now: int)
    requires Kernel(p) && Faithful(row, serverId, StatusOf(p, now)) && RowOk(row)
    ensures RendersPeer(row, serverId, p)
  {
    hide SingleHost, Trim, BlankIps, KeyOk, AllPrinted, PeerPrintable, AddressText, ShownEntries;
    KernelIpsRead(p.allowedIps);
    KeySpaceless(p.publicKey);
    AddressTextNotEmpty(row);
  }

  lemma AddressTextNotEmpty(row: DeviceRow)
    requires RowOk(row)
    ensures row.tunnelAddress.Some? ==> Truthy(row.tunnelAddress)
    ensures row.allowedIps.Some? ==> Truthy(row.allowedIps)
  {
  }

  /** The row through which an untracked live peer is tracked after a read. */
  lemma ImportedRowOf(w: World, serverId: nat, iface: WgInterface, now: int, k: nat) returns (row: DeviceRow)
    requires WorldOk(w, iface) && k < |w.live| && !Tracks(w.table.rows, serverId, w.live[k].publicKey)
    ensures row in AfterRead(w, serverId, iface, true, now).rows && RendersPeer(row, serverId, w.live[k])
    ensures row.id >= w.table.nextId
  {
    hide AfterRead, ImportAll, Faithful, Tracks, RendersPeer, CleanAddition, KeyOk, AllPrinted, PeerPrintable, RowOk,
         RefsKnown;
    AfterReadExact(w, serverId, iface, true, now);
    var t := AfterRead(w, serverId, iface, true, now);
    var statuses := StatusesOf(w.live, now);
    assert Kernel(w.live[k]);
    KeySpaceless(w.live[k].publicKey);
    assert FirstOf(statuses, k) by {
      forall j | 0 <= j < k
        ensures statuses[j].publicKey != statuses[k].publicKey
      {
        assert KernelApart(w.live[j], w.live[k]);
      }
    }
    ImportedFaithfully(w.table, serverId, statuses, k);
    var i :| |w.table.rows| <= i < |t.rows| && Faithful(t.rows[i], serverId, statuses[k]);
    row := t.rows[i];
    assert RowOk(row);
    FaithfulRenders(row, serverId, w.live[k], now);
    AddedIds(w.table, serverId, statuses, i);
  }

  /** Rows that an import adds get new ids. */
  lemma {:induction false} AddedIds(t: Table, serverId: nat, peers: seq<PeerStatus>, i: nat)
    requires ImportAll(t, serverId, peers).Ok?
    requires |t.rows| <= i < |ImportAll(t, serverId, peers).value.table.rows|
    ensures ImportAll(t, serverId, peers).value.table.rows[i].id >= t.nextId
    decreases |peers|
  {
    hide ImportOne;
    var init, p := peers[..|peers| - 1], peers[|peers| - 1];
    var was := ImportAll(t, serverId, init).value;
    NextIdGrows(t, serverId, init);
    AddedId(was, serverId, p, i);
    if i < |was.table.rows| {
      AddedIds(t, serverId, init, i);
    }
  }

  lemma {:induction false} NextIdGrows(t: Table, serverId: nat, peers: seq<PeerStatus>)
    requires ImportAll(t, serverId, peers).Ok?
    ensures ImportAll(t, serverId, peers).value.table.nextId >= t.nextId
    ensures t.rows <= ImportAll(t, serverId, peers).value.table.rows
    decreases |peers|
  {
    hide ImportOne;
    if peers != [] {
      NextIdGrows(t, serverId, peers[..|peers| - 1]);
      AddedId(ImportAll(t, serverId, peers[..|peers| - 1]).value, serverId, peers[|peers| - 1], 0);
    }
  }

  lemma AddedId(was: Import, serverId: nat, p: PeerStatus, i: nat)
    requires ImportOne(was, serverId, p).Ok?
    ensures var after := ImportOne(was, serverId, p).value.table;
            && was.table.rows <= after.rows && after.nextId >= was.table.nextId
            && (|was.table.rows| <= i < |after.rows| ==> after.rows[i].id == was.table.nextId)
  {
    hide DeriveImportAddress, UsedAddresses, Skipped, Clashes;
  }

  // ---------------------------------------------------------------- what every peer shows afterwards

  /** What speaks for a key in the next render: where it is listed, and what it claims. */
  datatype Claimant = Claimant(name: string, id: nat, claims: seq<string>)

  function ClaimantRow(row: DeviceRow): Claimant {
    Claimant(row.name, row.id, Claims(RowIps(row)))
  }

  function TrackedRow(rows: seq<DeviceRow>, serverId: nat, key: string): (r: Option<DeviceRow>)
    ensures r.Some? ==> r.value in rows && HasKey(r.value, serverId, key)
    ensures r.None? ==> !Tracks(rows, serverId, key)
  {
    if rows == [] then None
    else if HasKey(rows[|rows| - 1], serverId, key) then Some(rows[|rows| - 1])
    else TrackedRow(rows[..|rows| - 1], serverId, key)
  }

  /** A live peer is spoken for by the row that tracks it, or by the row an import would add. */
  function ClaimantOf(w: World, serverId: nat, p: WgPeer): Claimant {
    match TrackedRow(w.table.rows, serverId, p.publicKey)
    case Some(row) => ClaimantRow(row)
    case None => Claimant(ImportedName(p.publicKey), w.table.nextId, ShownEntries(p.allowedIps))
  }

  predicate ListedBefore(c: Claimant, row: DeviceRow) {
    TextLeq(c.name, row.name) && (c.name == row.name ==> c.id < row.id)
  }

  /** A rendered row of the table, listed later, claims the entry. */
  predicate RowTakes(row: DeviceRow, serverId: nat, c: Claimant, e: string) {
    row.serverId == serverId && Rendered(row) && ListedBefore(c, row) && e in Claims(RowIps(row))
  }

  /** The import of another live peer, listed later, brings a claim on the entry. */
  predicate PeerTakes(p: WgPeer, rows: seq<DeviceRow>, serverId: nat, key: string, c: Claimant, e: string) {
    && p.publicKey != key && !Tracks(rows, serverId, p.publicKey)
    && TextLeq(c.name, ImportedName(p.publicKey)) && e in ShownEntries(p.allowedIps)
  }

  /** Something listed after the claimant will claim the entry too, as the state before an apply tells. */
  ghost predicate ClaimedLater(w: World, serverId: nat, readOk: bool, key: string, c: Claimant, e: string) {
    || (exists row :: row in w.table.rows && RowTakes(row, serverId, c, e))
    || (readOk && exists p :: p in w.live && PeerTakes(p, w.table.rows, serverId, key, c, e))
  }

  ghost function TakenClaims(w: World, serverId: nat, readOk: bool, key: string, c: Claimant): set<string> {
    set e | e in c.claims && ClaimedLater(w, serverId, readOk, key, c, e)
  }

  /** What is left to the claimant. */
  ghost function Remaining(w: World, serverId: nat, readOk: bool, key: string, c: Claimant): seq<string> {
    Left(c.claims, TakenClaims(w, serverId, readOk, key, c))
  }

  /** The rows that take an entry from a rendered row are those of its table that are listed later. */
  lemma TakenByLater(t: Table, serverId: nat, j: nat, e: string)
    requires TableOk(t) && j < |RenderedRows(t.rows, serverId)|
    ensures var rr := RenderedRows(t.rows, serverId);
            e in ClaimedBy(RowsIps(rr)[j + 1..]) <==>
            exists row :: row in t.rows && RowTakes(row, serverId, ClaimantRow(rr[j]), e)
  {
    hide RenderedRows, Rendered, TableOk, RowIps, Claims, TextLeq;
    RenderedRowsExact(t, serverId);
    var rr := RenderedRows(t.rows, serverId);
    var values := RowsIps(rr)[j + 1..];
    if i :| 0 <= i < |values| && e in Claims(values[i]) {
      var row := rr[j + 1 + i];
      assert row in rr && InOrder(rr[j], row, DeviceName, DeviceId);
      assert RowTakes(row, serverId, ClaimantRow(rr[j]), e);
    }
    if row :| row in t.rows && RowTakes(row, serverId, ClaimantRow(rr[j]), e) {
      assert row in rr;
      var m :| 0 <= m < |rr| && rr[m] == row;
      ListedAt(rr, j, m);
      assert values[m - j - 1] == RowIps(row);
    }
  }

  lemma ListedAt(rr: seq<DeviceRow>, j: nat, m: nat)
    requires Ordered(rr, DeviceName, DeviceId) && j < |rr| && m < |rr| && ListedBefore(ClaimantRow(rr[j]), rr[m])
    ensures j < m
  {
    hide TextLeq, RowIps, Claims;
    if m < j {
      BothWays(rr[m], rr[j]);
    }
  }

  lemma BothWays(a: DeviceRow, b: DeviceRow)
    requires InOrder(a, b, DeviceName, DeviceId)
    ensures !ListedBefore(ClaimantRow(b), a)
  {
    hide TextLeq, RowIps, Claims;
    if TextLeq(a.name, b.name) && TextLeq(b.name, a.name) {
      LeqAntisymmetric(a.name, b.name);
    }
  }

  lemma PrefixMember(before: seq<DeviceRow>, after: seq<DeviceRow>, serverId: nat, row: DeviceRow)
    requires CleanAddition(before, after, serverId) && row in before
    ensures row in after
  {
    hide CleanRow, Broken;
    var i :| 0 <= i < |before| && before[i] == row;
    assert after[i] == row;
  }

  lemma RenderedPeerIps(row: DeviceRow, serverId: nat, p: WgPeer)
    requires RendersPeer(row, serverId, p) && Kernel(p) && p.allowedIps != "(none)"
    ensures RowIps(row) == p.allowedIps && Claims(RowIps(row)) == ShownEntries(p.allowedIps)
  {
    hide Rendered, Claims, AllPrinted, ShownEntries;
    ShownClaims(p.allowedIps);
    SpacelessCompact(p.allowedIps);
  }

  /** A rendered row that an apply adds speaks for a live peer that was not tracked. */
  lemma AddedRowOf(w: World, serverId: nat, iface: WgInterface, now: int, row: DeviceRow) returns (p: WgPeer)
    requires WorldOk(w, iface)
    requires row in AfterRead(w, serverId, iface, true, now).rows && row !in w.table.rows
    ensures p in w.live && Kernel(p) && RendersPeer(row, serverId, p) && !Tracks(w.table.rows, serverId, p.publicKey)
    ensures row.id >= w.table.nextId
  {
    hide AfterRead, InterfacePrintable, KeyOk, AllPrinted, ImportAll, CleanAddition, PeerPrintable, RowOk, RefsKnown,
         Apart, Faithful, KernelApart, RendersPeer;
    AfterReadExact(w, serverId, iface, true, now);
    var t := AfterRead(w, serverId, iface, true, now);
    var statuses := StatusesOf(w.live, now);
    var i :| 0 <= i < |t.rows| && t.rows[i] == row;
    if i < |w.table.rows| {
      PrefixAt(w.table.rows, t.rows, serverId, i);
    }
    AddedFaithfully(w.table, serverId, statuses, i);
    var m :| 0 <= m < |statuses| && Faithful(t.rows[i], serverId, statuses[m]);
    p := w.live[m];
    assert Kernel(p) && RowOk(row);
    FaithfulRenders(row, serverId, p, now);
    AddedIds(w.table, serverId, statuses, i);
    RendersKey(row, serverId, p);
    if Tracks(w.table.rows, serverId, p.publicKey) {
      var k :| 0 <= k < |w.table.rows| && HasKey(w.table.rows[k], serverId, p.publicKey);
      PrefixMember(w.table.rows, t.rows, serverId, w.table.rows[k]);
      SameKeySameRow(t, w.table.rows[k], row);
    }
  }

  lemma RendersKey(row: DeviceRow, serverId: nat, p: WgPeer)
    requires RendersPeer(row, serverId, p)
    ensures HasKey(row, serverId, p.publicKey) && row.name == ImportedName(p.publicKey)
    ensures p.allowedIps == "(none)" <==> !Rendered(row)
  {
    hide Rendered;
  }

  lemma PrefixAt(before: seq<DeviceRow>, after: seq<DeviceRow>, serverId: nat, i: nat)
    requires CleanAddition(before, after, serverId) && i < |before|
    ensures after[i] == before[i]
  {
    hide CleanRow, Broken;
  }

  /** A row of the table an apply renders from, and the claimant it stands for in the state before. */
  predicate SpeaksFor(w: World, serverId: nat, row: DeviceRow, c: Claimant) {
    && row.serverId == serverId && row.publicKey.Some? && Rendered(row) && c.claims == Claims(RowIps(row))
    && c.name == row.name
    && (if row in w.table.rows then c.id == row.id
        else row.id >= w.table.nextId && c.id == w.table.nextId
             && exists p :: p in w.live && RendersPeer(row, serverId, p)
                         && !Tracks(w.table.rows, serverId, p.publicKey))
  }

  /** Who takes an entry can be told from the state before the apply. */
  lemma TakenBefore(
      w: World, serverId: nat, iface: WgInterface, readOk: bool, now: int, row: DeviceRow, c: Claimant, e: string)
    requires WorldOk(w, iface) && row in AfterRead(w, serverId, iface, readOk, now).rows
    requires SpeaksFor(w, serverId, row, c) && e in c.claims
    ensures (exists later :: later in AfterRead(w, serverId, iface, readOk, now).rows
                          && RowTakes(later, serverId, ClaimantRow(row), e)) <==>
            ClaimedLater(w, serverId, readOk, row.publicKey.value, c, e)
  {
    hide AfterRead, InterfacePrintable, KernelOk, RowTakes, PeerTakes, TableOk, RendersPeer, Rendered, Claims, RowIps;
    var rows := AfterRead(w, serverId, iface, readOk, now).rows;
    if later :| later in rows && RowTakes(later, serverId, ClaimantRow(row), e) {
      TakenIsTold(w, serverId, iface, readOk, now, row, c, later, e);
    }
    if later :| later in w.table.rows && RowTakes(later, serverId, c, e) {
      TrackedTakes(w, serverId, iface, readOk, now, row, c, later, e);
    }
    if readOk {
      if p :| p in w.live && PeerTakes(p, w.table.rows, serverId, row.publicKey.value, c, e) {
        ImportedTakes(w, serverId, iface, now, row, c, p, e);
      }
    }
  }

  /** Rows of the table before have smaller ids than what is imported. */
  lemma OldId(w: World, row: DeviceRow)
    requires TableOk(w.table) && row in w.table.rows
    ensures row.id < w.table.nextId
  {
    hide RowOk, RefsKnown, Apart;
  }

  lemma TakenIsTold(w: World, serverId: nat, iface: WgInterface, readOk: bool, now: int,
                    row: DeviceRow, c: Claimant, later: DeviceRow, e: string)
    requires WorldOk(w, iface) && row in AfterRead(w, serverId, iface, readOk, now).rows
    requires SpeaksFor(w, serverId, row, c) && e in c.claims
    requires later in AfterRead(w, serverId, iface, readOk, now).rows && RowTakes(later, serverId, ClaimantRow(row), e)
    ensures ClaimedLater(w, serverId, readOk, row.publicKey.value, c, e)
  {
    hide AfterRead, InterfacePrintable, KernelOk, TableOk, Claims, RowIps, Rendered, TextLeq, RendersPeer,
         ShownEntries, Kernel, ImportAll, CleanAddition;
    AfterReadExact(w, serverId, iface, readOk, now);
    if later in w.table.rows {
      OldId(w, later);
      assert RowTakes(later, serverId, c, e);
    } else {
      var p := AddedRowOf(w, serverId, iface, now, later);
      RendersKey(later, serverId, p);
      RenderedPeerIps(later, serverId, p);
      if p.publicKey == row.publicKey.value {
        SameKeySameRow(AfterRead(w, serverId, iface, readOk, now), row, later);
      }
      assert PeerTakes(p, w.table.rows, serverId, row.publicKey.value, c, e);
    }
  }

  lemma TrackedTakes(w: World, serverId: nat, iface: WgInterface, readOk: bool, now: int,
                     row: DeviceRow, c: Claimant, later: DeviceRow, e: string)
    requires WorldOk(w, iface) && SpeaksFor(w, serverId, row, c)
    requires later in w.table.rows && RowTakes(later, serverId, c, e)
    ensures later in AfterRead(w, serverId, iface, readOk, now).rows && RowTakes(later, serverId, ClaimantRow(row), e)
  {
    hide AfterRead, InterfacePrintable, KernelOk, TableOk, Claims, RowIps, Rendered, TextLeq, RendersPeer, ImportAll,
         CleanAddition, Tracks;
    AfterReadExact(w, serverId, iface, readOk, now);
    PrefixMember(w.table.rows, AfterRead(w, serverId, iface, readOk, now).rows, serverId, later);
    OldId(w, later);
  }

  lemma ImportedTakes(w: World, serverId: nat, iface: WgInterface, now: int,
                      row: DeviceRow, c: Claimant, p: WgPeer, e: string)
    requires WorldOk(w, iface) && row in AfterRead(w, serverId, iface, true, now).rows
    requires SpeaksFor(w, serverId, row, c) && e in c.claims
    requires p in w.live && PeerTakes(p, w.table.rows, serverId, row.publicKey.value, c, e)
    ensures exists later :: later in AfterRead(w, serverId, iface, true, now).rows
                         && RowTakes(later, serverId, ClaimantRow(row), e)
  {
    hide AfterRead, InterfacePrintable, KernelOk, TableOk, Claims, RowIps, Rendered, TextLeq, RendersPeer,
         ShownEntries, Kernel, Tracks;
    var k :| 0 <= k < |w.live| && w.live[k] == p;
    var later := ImportedRowOf(w, serverId, iface, now, k);
    LiveKernel(w.live, p);
    EntryMeansIps(p, e);
    RendersKey(later, serverId, p);
    RenderedPeerIps(later, serverId, p);
    if row in w.table.rows {
      OldId(w, row);
    } else {
      var q :| q in w.live && RendersPeer(row, serverId, q) && !Tracks(w.table.rows, serverId, q.publicKey);
      LiveKernel(w.live, q);
      RendersKey(row, serverId, q);
      RenderedPeerIps(row, serverId, q);
      LiveApart(w.live, p, q, e);
    }
    assert RowTakes(later, serverId, ClaimantRow(row), e);
  }

  lemma LiveKernel(live: seq<WgPeer>, p: WgPeer)
    requires KernelOk(live) && p in live
    ensures Kernel(p)
  {
    hide Kernel, KernelApart;
  }

  lemma EntryMeansIps(p: WgPeer, e: string)
    requires e in ShownEntries(p.allowedIps)
    ensures p.allowedIps != "(none)"
  {
  }

  lemma LiveApart(live: seq<WgPeer>, p: WgPeer, q: WgPeer, e: string)
    requires KernelOk(live) && p in live && q in live && p.publicKey != q.publicKey
    ensures !(e in ShownEntries(p.allowedIps) && e in ShownEntries(q.allowedIps))
  {
    hide Kernel, ShownEntries;
    var i :| 0 <= i < |live| && live[i] == p;
    var j :| 0 <= j < |live| && live[j] == q;
    assert if i < j then KernelApart(live[i], live[j]) else KernelApart(live[j], live[i]);
  }

  lemma {:induction false} LeftDepends(claims: seq<string>, a: set<string>, b: set<string>)
    requires forall e :: e in claims ==> (e in a <==> e in b)
    ensures Left(claims, a) == Left(claims, b)
  {
    if claims != [] {
      LeftDepends(claims[..|claims| - 1], a, b);
    }
  }

  lemma LeftPrinted(claims: seq<string>, taken: set<string>)
    requires AllPrinted(claims)
    ensures AllPrinted(Left(claims, taken))
  {
    hide Printed;
    LeftExact(claims, taken);
    var left := Left(claims, taken);
    forall i | 0 <= i < |left|
      ensures Printed(left[i])
    {
      assert left[i] in claims;
    }
  }

  /** What a rendered row shows after a sync, in terms of the state before the apply. */
  lemma RowShows(w: World, serverId: nat, iface: WgInterface, readOk: bool, now: int, j: nat, c: Claimant)
    requires WorldOk(w, iface)
    requires var t := AfterRead(w, serverId, iface, readOk, now);
             && TableOk(t) && CleanRows(t.rows) && !AnyBroken(t.rows, serverId) && j < |RenderedRows(t.rows, serverId)|
             && SpeaksFor(w, serverId, RenderedRows(t.rows, serverId)[j], c)
    ensures var rr := RenderedRows(AfterRead(w, serverId, iface, readOk, now).rows, serverId);
            && rr[j].publicKey.Some?
            && ShownIps(RowsIps(rr), j) == IpsText(Remaining(w, serverId, readOk, rr[j].publicKey.value, c))
    ensures AllPrinted(c.claims) && AllPrinted(Remaining(w, serverId, readOk,
              RenderedRows(AfterRead(w, serverId, iface, readOk, now).rows, serverId)[j].publicKey.value, c))
  {
    hide AfterRead, InterfacePrintable, KernelOk, TableOk, Claims, RowIps, Rendered, TextLeq, RendersPeer, AllPrinted,
         RenderedRows, CleanRow, Broken, Tracks, ClaimedLater, RowTakes, ClaimedBy, KeyOk, Compact, Allowed, IpsOk,
         OneLine;
    var t := AfterRead(w, serverId, iface, readOk, now);
    var rr := RenderedRows(t.rows, serverId);
    var key := rr[j].publicKey.value;
    RowsAccepted(t, serverId);
    var taken := ClaimedBy(RowsIps(rr)[j + 1..]);
    forall e | e in c.claims
      ensures e in taken <==> e in TakenClaims(w, serverId, readOk, key, c)
    {
      TakenByLater(t, serverId, j, e);
      TakenBefore(w, serverId, iface, readOk, now, rr[j], c, e);
    }
    LeftDepends(c.claims, taken, TakenClaims(w, serverId, readOk, key, c));
    LeftPrinted(c.claims, TakenClaims(w, serverId, readOk, key, c));
  }

  /** The entries a text shows, and the text that shows them. */
  lemma SameShown(entries: seq<string>, allowedIps: string)
    requires AllPrinted(entries) && AllPrinted(ShownEntries(allowedIps))
    ensures IpsText(entries) == allowedIps <==> entries == ShownEntries(allowedIps)
  {
    hide AllPrinted;
    IpsTextReads(entries);
    if allowedIps != "(none)" {
      ShownClaims(allowedIps);
    }
  }

  // ---------------------------------------------------------------- the promise

  /** A claimant that is live after the apply shows what is left of its claims. */
  lemma ClaimantShows(w: World, server: ServerRow, iface: WgInterface, readOk: bool, now: int,
                      row: DeviceRow, c: Claimant, key: string, j: nat)
    requires Ready(w, server, iface)
    requires var t := AfterRead(w, server.id, iface, readOk, now);
             && TableOk(t) && CleanRows(t.rows) && !AnyBroken(t.rows, server.id)
             && row in t.rows && HasKey(row, server.id, key)
             && (Rendered(row) ==> SpeaksFor(w, server.id, row, c))
             && j < |RenderedLive(t, server.id)| && RenderedLive(t, server.id)[j].publicKey == key
    ensures var shown := RenderedLive(AfterRead(w, server.id, iface, readOk, now), server.id)[j].allowedIps;
            shown == IpsText(Remaining(w, server.id, readOk, key, c))
    ensures AllPrinted(c.claims) && AllPrinted(Remaining(w, server.id, readOk, key, c))
  {
    hide AfterRead, WorldOk, TableOk, Claims, RowIps, Rendered, CleanRow, RenderedRows, RenderedLive, RowsIps,
         ShownIps, AnyBroken, KeyOk, SpeaksFor, Remaining, AllPrinted;
    var t := AfterRead(w, server.id, iface, readOk, now);
    LiveAfter(t, server.id, key);
    RenderedRowsExact(t, server.id);
    assert row in RenderedRows(t.rows, server.id);
    RowShows(w, server.id, iface, readOk, now, j, c);
  }

  /**
   Every tracked peer that has an address is live after a successful apply. It
   shows what its row claims less what is claimed later; all of it, if and only
   if nothing listed after it claims an entry of its own.
   */
  lemma TrackedPeersAreLive(
      w: World, server: ServerRow, iface: WgInterface, readOk: bool, syncOk: bool, now: int, row: DeviceRow)
    requires Ready(w, server, iface)
    requires row in w.table.rows && row.serverId == server.id && Rendered(row)
    requires ApplyStep(w, server, iface, readOk, syncOk, now).ok
    ensures var live := ApplyStep(w, server, iface, readOk, syncOk, now).world.live;
            var key, c := row.publicKey.value, ClaimantRow(row);
            && IsLive(live, key)
            && forall j :: 0 <= j < |live| && live[j].publicKey == key ==>
                 && live[j].allowedIps == IpsText(Remaining(w, server.id, readOk, key, c))
                 && (live[j].allowedIps == IpsText(c.claims) <==>
                       forall e :: e in c.claims ==> !ClaimedLater(w, server.id, readOk, key, c, e))
  {
    hide AfterRead, ApplyStep, CleanRow, Broken, RenderedLive, RenderedRows, RowsIps, ShownIps, WgRefuses, IsLive,
         TableOk, ParseCidr, KernelOk, InterfacePrintable, AnyBroken, RowIps, Claims, ClaimedLater, Remaining,
         AllPrinted, CleanAddition, KeyOk;
    ApplySucceedsExactly(w, server, iface, readOk, syncOk, now);
    AfterReadExact(w, server.id, iface, readOk, now);
    var t := AfterRead(w, server.id, iface, readOk, now);
    PrefixMember(w.table.rows, t.rows, server.id, row);
    var key, c := row.publicKey.value, ClaimantRow(row);
    LiveAfter(t, server.id, key);
    var live := RenderedLive(t, server.id);
    forall j | 0 <= j < |live| && live[j].publicKey == key
      ensures live[j].allowedIps == IpsText(Remaining(w, server.id, readOk, key, c))
      ensures live[j].allowedIps == IpsText(c.claims) <==>
              forall e :: e in c.claims ==> !ClaimedLater(w, server.id, readOk, key, c, e)
    {
      ClaimantShows(w, server, iface, readOk, now, row, c, key, j);
      RemainingAll(w, server.id, readOk, key, c);
    }
  }

  /** A claimant is left all its claims exactly when none of them is claimed later. */
  lemma RemainingAll(w: World, serverId: nat, readOk: bool, key: string, c: Claimant)
    requires AllPrinted(c.claims) && AllPrinted(Remaining(w, serverId, readOk, key, c))
    ensures Remaining(w, serverId, readOk, key, c) == c.claims <==>
            forall e :: e in c.claims ==> !ClaimedLater(w, serverId, readOk, key, c, e)
    ensures IpsText(Remaining(w, serverId, readOk, key, c)) == IpsText(c.claims) <==>
            Remaining(w, serverId, readOk, key, c) == c.claims
  {
    hide ClaimedLater, Printed;
    LeftAll(c.claims, TakenClaims(w, serverId, readOk, key, c));
    IpsTextReads(c.claims);
    IpsTextReads(Remaining(w, serverId, readOk, key, c));
  }

  /**
   The non-destructive promise, exactly, for every live peer. It is live after a
   successful apply if and only if, when tracked, its row has an address, and when
   not, the live peers could be read and it has AllowedIPs. It then shows what
   its claimant claims less what is claimed later, so it has the same AllowedIPs
   if and only if that is what it showed before.
   */
  lemma LivePeerSurvivesExactly(
      w: World, server: ServerRow, iface: WgInterface, readOk: bool, syncOk: bool, now: int, k: nat)
    requires Ready(w, server, iface)
    requires ApplyStep(w, server, iface, readOk, syncOk, now).ok && k < |w.live|
    ensures var live := ApplyStep(w, server, iface, readOk, syncOk, now).world.live;
            var p := w.live[k];
            var left := Remaining(w, server.id, readOk, p.publicKey, ClaimantOf(w, server.id, p));
            && (IsLive(live, p.publicKey) <==>
                  if Tracks(w.table.rows, server.id, p.publicKey) then IsRendered(w.table.rows, server.id, p.publicKey)
                  else readOk && p.allowedIps != "(none)")
            && (forall j :: 0 <= j < |live| && live[j].publicKey == p.publicKey ==>
                  && live[j].allowedIps == IpsText(left)
                  && (live[j].allowedIps == p.allowedIps <==> left == ShownEntries(p.allowedIps)))
  {
    hide AfterRead, ApplyStep, CleanRow, RenderedLive, WgRefuses, IsLive, IsRendered, Tracks, TableOk, ParseCidr,
         InterfacePrintable, AnyBroken, Remaining, AllPrinted, KeyOk, ClaimantOf, KernelApart, PeerPrintable;
    ApplySucceedsExactly(w, server, iface, readOk, syncOk, now);
    var p := w.live[k];
    assert Kernel(p);
    if Tracks(w.table.rows, server.id, p.publicKey) {
      TrackedSurvives(w, server, iface, readOk, now, p);
    } else if readOk {
      UntrackedSurvives(w, server, iface, now, k);
    } else {
      UnreadPeerLost(w, server, iface, now, p.publicKey);
    }
  }

  lemma TrackedSurvives(w: World, server: ServerRow, iface: WgInterface, readOk: bool, now: int, p: WgPeer)
    requires Ready(w, server, iface) && Kernel(p) && Tracks(w.table.rows, server.id, p.publicKey)
    requires var t := AfterRead(w, server.id, iface, readOk, now);
             TableOk(t) && CleanRows(t.rows) && !AnyBroken(t.rows, server.id)
    ensures var live := RenderedLive(AfterRead(w, server.id, iface, readOk, now), server.id);
            var left := Remaining(w, server.id, readOk, p.publicKey, ClaimantOf(w, server.id, p));
            && (IsLive(live, p.publicKey) <==> IsRendered(w.table.rows, server.id, p.publicKey))
            && (forall j :: 0 <= j < |live| && live[j].publicKey == p.publicKey ==>
                  && live[j].allowedIps == IpsText(left)
                  && (live[j].allowedIps == p.allowedIps <==> left == ShownEntries(p.allowedIps)))
  {
    hide AfterRead, CleanRow, RenderedLive, RenderedRows, RowsIps, ShownIps, IsLive, TableOk, InterfacePrintable,
         AnyBroken, Remaining, AllPrinted, KeyOk, KernelOk, PeerPrintable, CleanAddition, Rendered, RowIps, Claims,
         Tracks, ShownEntries;
    var t := AfterRead(w, server.id, iface, readOk, now);
    var row := TrackedRow(w.table.rows, server.id, p.publicKey).value;
    AfterReadExact(w, server.id, iface, readOk, now);
    PrefixMember(w.table.rows, t.rows, server.id, row);
    LiveAfter(t, server.id, p.publicKey);
    if r :| r in t.rows && r.serverId == server.id && Rendered(r) && r.publicKey == Some(p.publicKey) {
      SameKeySameRow(t, r, row);
    }
    if r :| r in w.table.rows && r.serverId == server.id && Rendered(r) && r.publicKey == Some(p.publicKey) {
      PrefixMember(w.table.rows, t.rows, server.id, r);
    }
    var live := RenderedLive(t, server.id);
    forall j | 0 <= j < |live| && live[j].publicKey == p.publicKey
      ensures var left := Remaining(w, server.id, readOk, p.publicKey, ClaimantRow(row));
              && live[j].allowedIps == IpsText(left)
              && (live[j].allowedIps == p.allowedIps <==> left == ShownEntries(p.allowedIps))
    {
      ClaimantShows(w, server, iface, readOk, now, row, ClaimantRow(row), p.publicKey, j);
      SameShown(Remaining(w, server.id, readOk, p.publicKey, ClaimantRow(row)), p.allowedIps);
    }
  }

  lemma UntrackedSurvives(w: World, server: ServerRow, iface: WgInterface, now: int, k: nat)
    requires Ready(w, server, iface)
    requires k < |w.live| && !Tracks(w.table.rows, server.id, w.live[k].publicKey)
    requires var t := AfterRead(w, server.id, iface, true, now);
             TableOk(t) && CleanRows(t.rows) && !AnyBroken(t.rows, server.id)
    ensures var live := RenderedLive(AfterRead(w, server.id, iface, true, now), server.id);
            var p := w.live[k];
            var left := Remaining(w, server.id, true, p.publicKey, ClaimantOf(w, server.id, p));
            && (IsLive(live, p.publicKey) <==> p.allowedIps != "(none)")
            && (forall j :: 0 <= j < |live| && live[j].publicKey == p.publicKey ==>
                  && live[j].allowedIps == IpsText(left)
                  && (live[j].allowedIps == p.allowedIps <==> left == ShownEntries(p.allowedIps)))
  {
    hide AfterRead, CleanRow, RenderedLive, RenderedRows, RowsIps, ShownIps, IsLive, TableOk, InterfacePrintable,
         AnyBroken, Remaining, AllPrinted, KeyOk, PeerPrintable, KernelApart, Rendered, RowIps, Claims, Tracks,
         ShownEntries, RendersPeer;
    var t := AfterRead(w, server.id, iface, true, now);
    var p := w.live[k];
    assert Kernel(p);
    var row := ImportedRowOf(w, server.id, iface, now, k);
    RendersKey(row, server.id, p);
    LiveAfter(t, server.id, p.publicKey);
    if r :| r in t.rows && r.serverId == server.id && Rendered(r) && r.publicKey == Some(p.publicKey) {
      SameKeySameRow(t, r, row);
    }
    NoTrackedRow(w.table.rows, server.id, p.publicKey);
    var c := ClaimantOf(w, server.id, p);
    if p.allowedIps != "(none)" {
      ImportedSpeaks(w, server.id, row, p);
    }
    var live := RenderedLive(t, server.id);
    forall j | 0 <= j < |live| && live[j].publicKey == p.publicKey
      ensures var left := Remaining(w, server.id, true, p.publicKey, c);
              && live[j].allowedIps == IpsText(left)
              && (live[j].allowedIps == p.allowedIps <==> left == ShownEntries(p.allowedIps))
    {
      IsLiveAt(live, j);
      ClaimantShows(w, server, iface, true, now, row, c, p.publicKey, j);
      SameShown(Remaining(w, server.id, true, p.publicKey, c), p.allowedIps);
    }
  }

  lemma IsLiveAt(live: seq<WgPeer>, j: nat)
    requires j < |live|
    ensures IsLive(live, live[j].publicKey)
  {
  }

  lemma NoTrackedRow(rows: seq<DeviceRow>, serverId: nat, key: string)
    requires !Tracks(rows, serverId, key)
    ensures TrackedRow(rows, serverId, key) == None
  {
  }

  lemma ImportedSpeaks(w: World, serverId: nat, row: DeviceRow, p: WgPeer)
    requires p in w.live && Kernel(p) && p.allowedIps != "(none)" && !Tracks(w.table.rows, serverId, p.publicKey)
    requires TableOk(w.table) && RendersPeer(row, serverId, p) && row.id >= w.table.nextId
    ensures TrackedRow(w.table.rows, serverId, p.publicKey) == None
    ensures SpeaksFor(w, serverId, row, ClaimantOf(w, serverId, p))
  {
    hide TableOk, Claims, RowIps, Rendered, RendersPeer, ShownEntries, Kernel, Tracks;
    NoTrackedRow(w.table.rows, serverId, p.publicKey);
    RendersKey(row, serverId, p);
    RenderedPeerIps(row, serverId, p);
    if row in w.table.rows {
      OldId(w, row);
    }
  }

  /** Two lists of entries have one in common. */
  predicate ShareEntry(a: seq<string>, b: seq<string>) {
    exists e :: e in a && e in b
  }

  /**
   A row of the table claims an entry of the live peer, and is listed after the row an import
   would give that peer.
   */
  predicate TakesFrom(row: DeviceRow, serverId: nat, p: WgPeer) {
    && row.serverId == serverId && Rendered(row)
    && !TextLeq(row.name, ImportedName(p.publicKey))
    && ShareEntry(Claims(RowIps(row)), ShownEntries(p.allowedIps))
  }

  predicate AnyTakes(rows: seq<DeviceRow>, serverId: nat, p: WgPeer) {
    exists row :: row in rows && TakesFrom(row, serverId, p)
  }

  /**
   For a live peer the table does not track this comes to: it is live afterwards
   if and only if the live peers could be read and it has AllowedIPs, and it then
   has the same AllowedIPs if and only if no tracked peer listed after it, by
   name, claims one of them.
   */
  lemma UntrackedPeerSurvivesExactly(
      w: World, server: ServerRow, iface: WgInterface, readOk: bool, syncOk: bool, now: int, k: nat)
    requires Ready(w, server, iface)
    requires ApplyStep(w, server, iface, readOk, syncOk, now).ok
    requires k < |w.live| && !Tracks(w.table.rows, server.id, w.live[k].publicKey)
    ensures var live := ApplyStep(w, server, iface, readOk, syncOk, now).world.live;
            && (IsLive(live, w.live[k].publicKey) <==> readOk && w.live[k].allowedIps != "(none)")
            && (forall j :: 0 <= j < |live| && live[j].publicKey == w.live[k].publicKey ==>
                  (live[j].allowedIps == w.live[k].allowedIps <==> !AnyTakes(w.table.rows, server.id, w.live[k])))
  {
    hide ApplyStep, CleanRow, IsLive, IsRendered, Tracks, TableOk, InterfacePrintable, Remaining, AllPrinted, KeyOk,
         AnyTakes, ClaimedLater, KernelApart, PeerPrintable;
    LivePeerSurvivesExactly(w, server, iface, readOk, syncOk, now, k);
    var p := w.live[k];
    NoTrackedRow(w.table.rows, server.id, p.publicKey);
    assert Kernel(p);
    UntrackedTaken(w, server.id, readOk, p);
    RemainingIs(w, server.id, readOk, p);
  }

  lemma RemainingIs(w: World, serverId: nat, readOk: bool, p: WgPeer)
    requires TrackedRow(w.table.rows, serverId, p.publicKey) == None && Kernel(p)
    ensures Remaining(w, serverId, readOk, p.publicKey, ClaimantOf(w, serverId, p)) == ShownEntries(p.allowedIps) <==>
            forall e :: e in ShownEntries(p.allowedIps) ==>
              !ClaimedLater(w, serverId, readOk, p.publicKey, ClaimantOf(w, serverId, p), e)
  {
    hide ClaimedLater, Printed, KeyOk, PeerPrintable, ShownEntries;
    LeftAll(ShownEntries(p.allowedIps), TakenClaims(w, serverId, readOk, p.publicKey, ClaimantOf(w, serverId, p)));
  }

  /** Of an untracked peer only a tracked one can take: live peers share no entry. */
  lemma UntrackedTaken(w: World, serverId: nat, readOk: bool, p: WgPeer)
    requires TableOk(w.table) && KernelOk(w.live) && p in w.live
            && TrackedRow(w.table.rows, serverId, p.publicKey) == None
    ensures (exists e :: e in ShownEntries(p.allowedIps)
                      && ClaimedLater(w, serverId, readOk, p.publicKey, ClaimantOf(w, serverId, p), e)) <==>
            AnyTakes(w.table.rows, serverId, p)
  {
    hide TableOk, KernelOk, Claims, RowIps, Rendered, TextLeq, ShownEntries, Tracks, ImportedName;
    var c := ClaimantOf(w, serverId, p);
    forall row | row in w.table.rows
      ensures ListedBefore(c, row) <==> !TextLeq(row.name, ImportedName(p.publicKey))
    {
      OldId(w, row);
      LeqTotal(row.name, c.name);
      if TextLeq(row.name, c.name) && TextLeq(c.name, row.name) {
        LeqAntisymmetric(row.name, c.name);
      }
    }
    if e :| e in ShownEntries(p.allowedIps) && ClaimedLater(w, serverId, readOk, p.publicKey, c, e) {
      if row :| row in w.table.rows && RowTakes(row, serverId, c, e) {
        assert TakesFrom(row, serverId, p);
      } else {
        var q :| q in w.live && PeerTakes(q, w.table.rows, serverId, p.publicKey, c, e);
        LiveApart(w.live, p, q, e);
      }
    }
    if row :| row in w.table.rows && TakesFrom(row, serverId, p) {
      var e :| e in Claims(RowIps(row)) && e in ShownEntries(p.allowedIps);
      assert RowTakes(row, serverId, c, e);
    }
  }

  lemma UnreadPeerLost(w: World, server: ServerRow, iface: WgInterface, now: int, key: string)
    requires Ready(w, server, iface) && !Tracks(w.table.rows, server.id, key)
    ensures var live := RenderedLive(AfterRead(w, server.id, iface, false, now), server.id);
            !IsLive(live, key) && forall j :: 0 <= j < |live| ==> live[j].publicKey != key
  {
    hide TableOk, CleanRow, Rendered, RenderedLive, RenderedRows, ShownIps, RowsIps, Tracks, KernelOk, KeyOk,
         InterfacePrintable;
    LiveAfter(w.table, server.id, key);
    NotTrackedNotRendered(w.table.rows, server.id, key);
  }

  lemma NotTrackedNotRendered(rows: seq<DeviceRow>, serverId: nat, key: string)
    requires !Tracks(rows, serverId, key)
    ensures !IsRendered(rows, serverId, key)
  {
    forall row | row in rows && row.serverId == serverId
      ensures row.publicKey != Some(key)
    {
      var i :| 0 <= i < |rows| && rows[i] == row;
      assert !HasKey(rows[i], serverId, key);
    }
  }

  // ---------------------------------------------------------------- doing it again

  /** The interface an apply leaves behind is one the kernel would print, and all its peers are tracked. */
  lemma LiveIsKernel(t: Table, serverId: nat)
    requires TableOk(t) && CleanRows(t.rows) && !AnyBroken(t.rows, serverId)
    ensures var live := RenderedLive(t, serverId);
            KernelOk(live) && forall j :: 0 <= j < |live| ==> Tracks(t.rows, serverId, live[j].publicKey)
  {
    hide RenderedRows, RenderedLive, RowsIps, ShownIps, KeyOk, AllPrinted, TableOk, CleanRow, Broken, Tracks,
         Rendered, Claims, PeerPrintable, KernelApart, RowIps, InOrder, Allowed, IpsOk, OneLine, Compact;
    var live, rr := RenderedLive(t, serverId), RenderedRows(t.rows, serverId);
    RenderedLiveExact(t, serverId);
    RenderedRowsExact(t, serverId);
    RowsAccepted(t, serverId);
    forall j | 0 <= j < |live|
      ensures Kernel(live[j]) && Tracks(t.rows, serverId, live[j].publicKey)
    {
      assert rr[j] in rr;
      ShownIsKernel(RowsIps(rr), j, live[j]);
      InTableTracked(t.rows, serverId, rr[j]);
    }
    forall i, j | 0 <= i < j < |live|
      ensures KernelApart(live[i], live[j])
    {
      assert rr[i] in rr && rr[j] in rr && InOrder(rr[i], rr[j], DeviceName, DeviceId);
      if live[i].publicKey == live[j].publicKey {
        SameKeySameRow(t, rr[i], rr[j]);
        NotBeforeItself(rr[i]);
      }
      ShownApart(RowsIps(rr), i, j, live[i], live[j]);
    }
  }

  lemma NotBeforeItself(row: DeviceRow)
    ensures !InOrder(row, row, DeviceName, DeviceId)
  {
  }

  lemma InTableTracked(rows: seq<DeviceRow>, serverId: nat, row: DeviceRow)
    requires row in rows && row.serverId == serverId && row.publicKey.Some?
    ensures Tracks(rows, serverId, row.publicKey.value)
  {
    var i :| 0 <= i < |rows| && rows[i] == row;
    assert HasKey(rows[i], serverId, row.publicKey.value);
  }

  lemma ShownIsKernel(values: seq<string>, j: nat, p: WgPeer)
    requires j < |values| && AllPrinted(Claims(values[j])) && KeyOk(p.publicKey)
    requires p == WgPeer(p.publicKey, "(none)", "(none)", ShownIps(values, j), 0, 0, 0, "off")
    ensures Kernel(p)
  {
    hide KeyOk, AllPrinted, Claims, Column, EdgeColumn;
    var left := Left(Claims(values[j]), ClaimedBy(values[j + 1..]));
    LeftPrinted(Claims(values[j]), ClaimedBy(values[j + 1..]));
    IpsTextReads(left);
    KeySpaceless(p.publicKey);
    SpacelessIsColumn(p.publicKey);
    SpacelessIsColumn(p.allowedIps);
    FixedColumns();
  }

  lemma FixedColumns()
    ensures Column("(none)") && EdgeColumn("off")
  {
  }

  lemma SpacelessIsColumn(s: string)
    requires NoSpace(s)
    ensures Column(s)
  {
    NewlineIsSpace();
  }

  /** An entry shown by a peer is claimed by none listed after it. */
  lemma ShownApart(values: seq<string>, i: nat, j: nat, a: WgPeer, b: WgPeer)
    requires i < j < |values| && AllPrinted(Claims(values[i])) && AllPrinted(Claims(values[j]))
            && a.publicKey != b.publicKey
    requires a.allowedIps == ShownIps(values, i) && b.allowedIps == ShownIps(values, j)
    ensures KernelApart(a, b)
  {
    hide AllPrinted, Claims;
    var takenI, takenJ := ClaimedBy(values[i + 1..]), ClaimedBy(values[j + 1..]);
    LeftExact(Claims(values[i]), takenI);
    LeftExact(Claims(values[j]), takenJ);
    LeftPrinted(Claims(values[i]), takenI);
    LeftPrinted(Claims(values[j]), takenJ);
    IpsTextReads(Left(Claims(values[i]), takenI));
    IpsTextReads(Left(Claims(values[j]), takenJ));
    forall e | e in Claims(values[j])
      ensures e in takenI
    {
      assert values[i + 1..][j - i - 1] == values[j];
    }
  }

  lemma StatusesTracked(w: World, serverId: nat, now: int)
    requires forall j :: 0 <= j < |w.live| ==> Tracks(w.table.rows, serverId, w.live[j].publicKey)
    ensures LiveKeys(StatusesOf(w.live, now)) <= Keys(w.table.rows, serverId)
  {
    hide Tracks, Keys;
    forall j | 0 <= j < |w.live|
      ensures w.live[j].publicKey in Keys(w.table.rows, serverId)
    {
      TracksIsKey(w.table.rows, serverId, w.live[j].publicKey);
    }
  }

  /**
   An apply that succeeds leaves a state to which all of this applies again, and in which
   every live peer is tracked.
   */
  lemma ApplyLeavesReady(w: World, server: ServerRow, iface: WgInterface, readOk: bool, syncOk: bool, now: int)
    requires Ready(w, server, iface)
    ensures var after := ApplyStep(w, server, iface, readOk, syncOk, now);
            && Ready(after.world, server, iface)
            && (after.ok ==> forall j :: 0 <= j < |after.world.live| ==>
                  Tracks(after.world.table.rows, server.id, after.world.live[j].publicKey))
  {
    hide TableOk, AfterRead, ApplyStep, CleanRow, RenderedLive, Kernel, KernelApart, Tracks, WgRefuses, ParseCidr,
         AnyBroken, KeyOk, InterfacePrintable;
    ApplySucceedsExactly(w, server, iface, readOk, syncOk, now);
    var after := ApplyStep(w, server, iface, readOk, syncOk, now);
    if after.ok {
      LiveIsKernel(after.world.table, server.id);
    }
  }

  /**
   A second apply after a successful one imports nothing, renders the identical
   text, and leaves the same peers live, whether or not it can read them first.
   */
  lemma ApplyConverges(w: World, server: ServerRow, iface: WgInterface, readOk: bool, syncOk: bool, now: int,
                       readAgain: bool, syncAgain: bool, later: int)
    requires Ready(w, server, iface)
    requires ApplyStep(w, server, iface, readOk, syncOk, now).ok
    ensures var once := ApplyStep(w, server, iface, readOk, syncOk, now).world;
            var twice := ApplyStep(once, server, iface, readAgain, syncAgain, later);
            && twice.world == once
            && twice.ok == syncAgain
            && RenderConfig(server, twice.world.table.rows) == RenderConfig(server, once.table.rows)
  {
    hide TableOk, AfterRead, ApplyStep, CleanRow, RenderedLive, ImportAll, Keys, LiveKeys, KernelOk, Tracks, PortOk,
         ListenPort, KeyOk, InterfacePrintable, ParseCidr, AnyBroken;
    ApplySucceedsExactly(w, server, iface, readOk, syncOk, now);
    ApplyLeavesReady(w, server, iface, readOk, syncOk, now);
    var once := ApplyStep(w, server, iface, readOk, syncOk, now).world;
    StatusesTracked(once, server.id, later);
    ImportNothing(once.table, server.id, StatusesOf(once.live, later));
    AfterReadExact(once, server.id, iface, readAgain, later);
    ApplySucceedsExactly(once, server, iface, readAgain, syncAgain, later);
  }
}
