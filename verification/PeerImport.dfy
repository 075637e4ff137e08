/**
 Importing live peers (backend/src/servers/peers.ts:8-63): how a live peer's
 AllowedIPs become a stored address, and the loop that adds every peer the
 device table does not track yet.
 */
module PeerImport {
  import opened Wrappers
  import opened Text
  import opened Net
  import opened DeviceStore
  import opened Status

  // ---------------------------------------------------------------- the stored address

  /** `/^\d{1,3}(\.\d{1,3}){3}$/`. */
  predicate HostText(s: string) {
    var parts := Split(s, '.');
    |parts| == 4 && forall i :: 0 <= i < 4 ==> 1 <= |parts[i]| <= 3 && AllDigits(parts[i])
  }

  datatype ImportAddress = ImportAddress(tunnelAddress: Option<string>, allowedIps: Option<string>)

  /** No address at all: empty, white space, or the literal `wg` prints for none. */
  predicate BlankIps(allowedIps: string) {
    Trim(allowedIps) == "" || Trim(allowedIps) == "(none)"
  }

  /** The host of an AllowedIPs list that is one bare host or one /32. */
  function SingleHost(allowedIps: string): Option<string> {
    var entries := Entries(Trim(allowedIps));
    if |entries| != 1 then None
    else
      var parts := Split(entries[0], '/');
      if (|parts| == 1 || parts[1] == "32") && HostText(parts[0]) then Some(parts[0]) else None
  }

  function DeriveImportAddress(allowedIps: string, used: seq<string>): ImportAddress {
    if BlankIps(allowedIps) then ImportAddress(None, None)
    else
      match SingleHost(allowedIps)
      case Some(ip) =>
        if ip in used then ImportAddress(None, Some(Trim(allowedIps))) else ImportAddress(Some(ip), None)
      case None => ImportAddress(None, Some(Trim(allowedIps)))
  }

  lemma HostTextIsAddress(s: string)
    requires HostText(s)
    ensures AddressText(s)
  {
    JoinAddressChars(Split(s, '.'));
    JoinSplit(s, '.');
  }

  lemma HostTextSpaceless(s: string)
    requires HostText(s)
    ensures NoSpace(s)
  {
    hide Split;
    JoinSplit(s, '.');
    JoinSpaceless(Split(s, '.'));
  }

  lemma {:induction false} JoinSpaceless(parts: seq<string>)
    requires forall i :: 0 <= i < |parts| ==> AllDigits(parts[i])
    ensures NoSpace(Join(parts, '.'))
  {
    if |parts| > 1 {
      JoinSpaceless(parts[1..]);
    }
  }

  // ---------------------------------------------------------------- the import of one peer

  function FirstEight(key: string): string {
    if |key| <= 8 then key else key[..8]
  }

  function ImportedName(key: string): string {
    "imported-" + FirstEight(key)
  }

  /** The name is made of the key: a fixed word and the first eight characters. */
  lemma ImportedNameExact(key: string)
    requires |key| >= 8
    ensures |ImportedName(key)| == 17 && ImportedName(key)[..9] == "imported-"
    ensures ImportedName(key)[9..] <= key
  {
    assert ImportedName(key)[9..] == key[..8];
  }

  function ImportedRow(serverId: nat, p: PeerStatus, address: ImportAddress): DeviceRow {
    DeviceRow(0, serverId, ImportedName(p.publicKey), Peer, None, None,
              address.tunnelAddress, Some(p.publicKey), None, None, Imported, NeedsReview, address.allowedIps)
  }

  /** A peer with no key or a key already tracked is passed over. */
  predicate Skipped(rows: seq<DeviceRow>, serverId: nat, p: PeerStatus) {
    p.publicKey == "" || Tracks(rows, serverId, p.publicKey)
  }

  datatype Import = Import(table: Table, count: nat)

  function ImportOne(was: Import, serverId: nat, p: PeerStatus): Result<Import, DbError> {
    if Skipped(was.table.rows, serverId, p) then Ok(was)
    else
      var address := DeriveImportAddress(p.allowedIps, UsedAddresses(was.table.rows, serverId));
      match Insert(was.table, ImportedRow(serverId, p, address))
      case Ok(t) => Ok(Import(t, was.count + 1))
      case Err(e) => Err(e)
  }

  function ImportAll(t: Table, serverId: nat, peers: seq<PeerStatus>): Result<Import, DbError> {
    if peers == [] then Ok(Import(t, 0))
    else
      match ImportAll(t, serverId, peers[..|peers| - 1])
      case Ok(done) => ImportOne(done, serverId, peers[|peers| - 1])
      case Err(e) => Err(e)
  }

  /** Inserting a row that stands apart from all others keeps the table. */
  lemma InsertKeeps(t: Table, row: DeviceRow)
    requires TableOk(t) && RowOk(row)
    requires row.tunnelAddress.Some? ==> row.tunnelAddress.value !in UsedAddresses(t.rows, row.serverId)
    requires row.publicKey.Some? ==> !Tracks(t.rows, row.serverId, row.publicKey.value)
    ensures Insert(t, row) != Err(UniqueViolation)
    ensures Insert(t, row).Ok? <==> RefsKnown(row, t.refs)
    ensures Insert(t, row).Ok? ==> TableOk(Insert(t, row).value)
  {
    if row.tunnelAddress.Some? {
      UsedAddressesExact(t.rows, row.serverId, row.tunnelAddress.value);
    }
    var added := row.(id := t.nextId);
    forall i | 0 <= i < |t.rows|
      ensures Apart(t.rows[i], added)
    {
      if row.tunnelAddress.Some? {
        assert !HasAddress(t.rows[i], row.serverId, row.tunnelAddress.value);
      }
      if row.publicKey.Some? {
        assert !HasKey(t.rows[i], row.serverId, row.publicKey.value);
      }
    }
  }

  /** An import never meets the unique index and keeps the table's invariant. */
  lemma ImportOneKeeps(was: Import, serverId: nat, p: PeerStatus)
    requires TableOk(was.table)
    ensures ImportOne(was, serverId, p).Ok? && TableOk(ImportOne(was, serverId, p).value.table)
  {
    hide HostText, Trim, SingleHost, AddressText, AddressChars;
    if !Skipped(was.table.rows, serverId, p) {
      var address := DeriveImportAddress(p.allowedIps, UsedAddresses(was.table.rows, serverId));
      if address.tunnelAddress.Some? {
        SingleHostText(p.allowedIps);
      }
      InsertKeeps(was.table, ImportedRow(serverId, p, address));
    }
  }

  lemma SingleHostText(allowedIps: string)
    requires SingleHost(allowedIps).Some?
    ensures AddressText(SingleHost(allowedIps).value)
  {
    HostTextIsAddress(SingleHost(allowedIps).value);
  }

  // ---------------------------------------------------------------- the import of a list

  /** The public keys a server's rows carry. */
  function Keys(rows: seq<DeviceRow>, serverId: nat): set<string> {
    set i | 0 <= i < |rows| && rows[i].serverId == serverId && rows[i].publicKey.Some? :: rows[i].publicKey.value
  }

  /** The non-empty public keys of a live list. */
  function LiveKeys(peers: seq<PeerStatus>): set<string> {
    set i | 0 <= i < |peers| && peers[i].publicKey != "" :: peers[i].publicKey
  }

  lemma TracksIsKey(rows: seq<DeviceRow>, serverId: nat, key: string)
    ensures Tracks(rows, serverId, key) <==> key in Keys(rows, serverId)
  {
    if i :| 0 <= i < |rows| && HasKey(rows[i], serverId, key) {
      assert rows[i].publicKey.value in Keys(rows, serverId);
    }
    if key in Keys(rows, serverId) {
      var i :| 0 <= i < |rows| && rows[i].serverId == serverId && rows[i].publicKey.Some?
          && rows[i].publicKey.value == key;
      assert HasKey(rows[i], serverId, key);
    }
  }

  lemma KeysAppend(rows: seq<DeviceRow>, row: DeviceRow, serverId: nat)
    ensures Keys(rows + [row], serverId) ==
            Keys(rows, serverId) +
            (if row.serverId == serverId && row.publicKey.Some? then {row.publicKey.value} else {})
  {
    var all := rows + [row];
    assert all[|rows|] == row;
    forall key | key in Keys(rows, serverId)
      ensures key in Keys(all, serverId)
    {
      var i :| 0 <= i < |rows| && rows[i].serverId == serverId && rows[i].publicKey.Some?
          && rows[i].publicKey.value == key;
      assert all[i] == rows[i];
    }
  }

  /** What an import that started from `t` has done so far. */
  ghost predicate Progress(t: Table, serverId: nat, peers: seq<PeerStatus>, done: Import) {
    && t.rows <= done.table.rows
    && |done.table.rows| == |t.rows| + done.count
    && Keys(done.table.rows, serverId) == Keys(t.rows, serverId) + LiveKeys(peers)
    && done.count == |Keys(done.table.rows, serverId) - Keys(t.rows, serverId)|
    && (forall i :: |t.rows| <= i < |done.table.rows| ==> done.table.rows[i].serverId == serverId)
  }

  lemma ProgressStep(t: Table, serverId: nat, peers: seq<PeerStatus>, was: Import, p: PeerStatus)
    requires Progress(t, serverId, peers, was) && ImportOne(was, serverId, p).Ok?
    ensures Progress(t, serverId, peers + [p], ImportOne(was, serverId, p).value)
  {
    hide DeriveImportAddress, UsedAddresses, Keys, LiveKeys, Clashes;
    LiveKeysAppend(peers, p);
    TracksIsKey(was.table.rows, serverId, p.publicKey);
    if !Skipped(was.table.rows, serverId, p) {
      var now := ImportOne(was, serverId, p).value.table.rows;
      var row := now[|was.table.rows|];
      assert now == was.table.rows + [row];
      KeysAppend(was.table.rows, row, serverId);
      var news := Keys(was.table.rows, serverId) - Keys(t.rows, serverId);
      assert Keys(now, serverId) - Keys(t.rows, serverId) == news + {p.publicKey};
    } else {
      assert LiveKeys(peers + [p]) <= Keys(was.table.rows, serverId);
    }
  }

  /**
   The import as a whole: it never fails, keeps every existing row where it was,
   ends with the old keys plus all non-empty live keys, counts exactly the new
   ones, and adds rows of its own server only.
   */
  lemma {:induction false} ImportExact(t: Table, serverId: nat, peers: seq<PeerStatus>)
    requires TableOk(t)
    ensures ImportAll(t, serverId, peers).Ok?
    ensures TableOk(ImportAll(t, serverId, peers).value.table)
    ensures Progress(t, serverId, peers, ImportAll(t, serverId, peers).value)
    decreases |peers|
  {
    hide TableOk, ImportOne, Keys;
    if peers == [] {
      assert Keys(t.rows, serverId) - Keys(t.rows, serverId) == {};
    } else {
      var init, p := peers[..|peers| - 1], peers[|peers| - 1];
      ImportExact(t, serverId, init);
      var was := ImportAll(t, serverId, init).value;
      ImportOneKeeps(was, serverId, p);
      ProgressStep(t, serverId, init, was, p);
      assert init + [p] == peers;
    }
  }

  lemma LiveKeysAppend(peers: seq<PeerStatus>, p: PeerStatus)
    ensures LiveKeys(peers + [p]) == LiveKeys(peers) + (if p.publicKey == "" then {} else {p.publicKey})
  {
    var all := peers + [p];
    assert all[|peers|] == p;
    forall key | key in LiveKeys(peers)
      ensures key in LiveKeys(all)
    {
      var i :| 0 <= i < |peers| && peers[i].publicKey != "" && peers[i].publicKey == key;
      assert all[i] == peers[i];
    }
  }

  /** A list whose keys are all tracked imports nothing. */
  lemma {:induction false} ImportNothing(t: Table, serverId: nat, peers: seq<PeerStatus>)
    requires LiveKeys(peers) <= Keys(t.rows, serverId)
    ensures ImportAll(t, serverId, peers) == Ok(Import(t, 0))
    decreases |peers|
  {
    if peers != [] {
      var init, p := peers[..|peers| - 1], peers[|peers| - 1];
      assert init + [p] == peers;
      LiveKeysAppend(init, p);
      ImportNothing(t, serverId, init);
      TracksIsKey(t.rows, serverId, p.publicKey);
    }
  }

  /** Importing the same list again, whole or in part and in any order, changes nothing. */
  lemma ImportIdempotent(t: Table, serverId: nat, peers: seq<PeerStatus>, again: seq<PeerStatus>)
    requires TableOk(t) && LiveKeys(again) <= LiveKeys(peers)
    ensures ImportAll(t, serverId, peers).Ok?
    ensures var done := ImportAll(t, serverId, peers).value.table;
            ImportAll(done, serverId, again) == Ok(Import(done, 0))
  {
    ImportExact(t, serverId, peers);
    ImportNothing(ImportAll(t, serverId, peers).value.table, serverId, again);
  }

  // ---------------------------------------------------------------- what an imported row says

  /** The AllowedIPs the server config renders for a row. */
  function RenderedIps(row: DeviceRow): Option<string> {
    match row.allowedIps
    case Some(a) => Some(a)
    case None =>
      match row.tunnelAddress
      case Some(t) => Some(t + "/32")
      case None => None
  }

  /** The same AllowedIPs up to outer white space and a bare host written as /32. */
  predicate SameIps(live: string, rendered: string) {
    rendered == Trim(live) || (SingleHost(live).Some? && rendered == SingleHost(live).value + "/32")
  }

  predicate FirstOf(peers: seq<PeerStatus>, k: nat) {
    k < |peers| && peers[k].publicKey != "" && forall j :: 0 <= j < k ==> peers[j].publicKey != peers[k].publicKey
  }

  /** The row the import gives to the first live peer with an untracked key. */
  predicate Faithful(row: DeviceRow, serverId: nat, p: PeerStatus) {
    && HasKey(row, serverId, p.publicKey) && row.name == ImportedName(p.publicKey)
    && row.kind == Peer && row.origin == Imported && row.management == NeedsReview && row.privateKey == None
    && row.segmentId == None && row.macAddress == None && row.sshTargetId == None
    && (BlankIps(p.allowedIps) ==> RenderedIps(row) == None)
    && (!BlankIps(p.allowedIps) ==> RenderedIps(row).Some? && SameIps(p.allowedIps, RenderedIps(row).value))
  }

  /** Every untracked live key gets one faithful row, from its first occurrence in the list. */
  lemma {:induction false} ImportedFaithfully(t: Table, serverId: nat, peers: seq<PeerStatus>, k: nat)
    requires TableOk(t) && FirstOf(peers, k) && !Tracks(t.rows, serverId, peers[k].publicKey)
    ensures ImportAll(t, serverId, peers).Ok?
    ensures exists i :: |t.rows| <= i < |ImportAll(t, serverId, peers).value.table.rows|
                     && Faithful(ImportAll(t, serverId, peers).value.table.rows[i], serverId, peers[k])
    decreases |peers|
  {
    hide TableOk, ImportOne, Keys, Faithful;
    ImportExact(t, serverId, peers);
    var init, p := peers[..|peers| - 1], peers[|peers| - 1];
    assert init + [p] == peers;
    ImportExact(t, serverId, init);
    var was := ImportAll(t, serverId, init).value;
    var rows := ImportAll(t, serverId, peers).value.table.rows;
    ProgressOfOne(was, serverId, p);
    if k < |init| {
      assert FirstOf(init, k) by {
        assert forall j :: 0 <= j < |init| ==> init[j] == peers[j];
      }
      ImportedFaithfully(t, serverId, init, k);
      var i :| |t.rows| <= i < |was.table.rows| && Faithful(was.table.rows[i], serverId, init[k]);
      assert rows[i] == was.table.rows[i];
    } else {
      assert p.publicKey !in LiveKeys(init);
      TracksIsKey(t.rows, serverId, p.publicKey);
      TracksIsKey(was.table.rows, serverId, p.publicKey);
      ImportOneFaithful(was, serverId, p);
      assert Faithful(rows[|was.table.rows|], serverId, p);
    }
  }

  /** Every row an import adds comes from some live peer. */
  lemma {:induction false} AddedFaithfully(t: Table, serverId: nat, peers: seq<PeerStatus>, i: nat)
    requires TableOk(t) && ImportAll(t, serverId, peers).Ok?
    requires |t.rows| <= i < |ImportAll(t, serverId, peers).value.table.rows|
    ensures var rows := ImportAll(t, serverId, peers).value.table.rows;
            exists k :: 0 <= k < |peers| && Faithful(rows[i], serverId, peers[k])
    decreases |peers|
  {
    hide TableOk, ImportOne, Faithful;
    var init, p := peers[..|peers| - 1], peers[|peers| - 1];
    ImportExact(t, serverId, init);
    var was := ImportAll(t, serverId, init).value;
    ProgressOfOne(was, serverId, p);
    var rows := ImportAll(t, serverId, peers).value.table.rows;
    if i < |was.table.rows| {
      AddedFaithfully(t, serverId, init, i);
      var k :| 0 <= k < |init| && Faithful(was.table.rows[i], serverId, init[k]);
      assert Faithful(rows[i], serverId, peers[k]);
    } else {
      AddedOne(was, serverId, p, i);
      assert Faithful(rows[i], serverId, peers[|peers| - 1]);
    }
  }

  /** And the rows stand in the order of their live peers. */
  lemma {:induction false} AddedInOrder(t: Table, serverId: nat, peers: seq<PeerStatus>, i: nat, j: nat)
    requires TableOk(t) && ImportAll(t, serverId, peers).Ok?
    requires |t.rows| <= i < j < |ImportAll(t, serverId, peers).value.table.rows|
    ensures var rows := ImportAll(t, serverId, peers).value.table.rows;
            exists k, m :: 0 <= k < m < |peers| && Faithful(rows[i], serverId, peers[k])
                        && Faithful(rows[j], serverId, peers[m])
    decreases |peers|
  {
    hide TableOk, ImportOne, Faithful;
    var init, p := peers[..|peers| - 1], peers[|peers| - 1];
    ImportExact(t, serverId, init);
    var was := ImportAll(t, serverId, init).value;
    ProgressOfOne(was, serverId, p);
    var rows := ImportAll(t, serverId, peers).value.table.rows;
    if j < |was.table.rows| {
      AddedInOrder(t, serverId, init, i, j);
      var k, m :| 0 <= k < m < |init| && Faithful(was.table.rows[i], serverId, init[k])
               && Faithful(was.table.rows[j], serverId, init[m]);
      assert Faithful(rows[i], serverId, peers[k]) && Faithful(rows[j], serverId, peers[m]);
    } else {
      AddedOne(was, serverId, p, j);
      OneMore(was, serverId, p);
      AddedFaithfully(t, serverId, init, i);
      var k :| 0 <= k < |init| && Faithful(was.table.rows[i], serverId, init[k]);
      assert Faithful(rows[i], serverId, peers[k]) && Faithful(rows[j], serverId, peers[|peers| - 1]);
    }
  }

  lemma OneMore(was: Import, serverId: nat, p: PeerStatus)
    requires ImportOne(was, serverId, p).Ok?
    ensures |ImportOne(was, serverId, p).value.table.rows| <= |was.table.rows| + 1
  {
    hide DeriveImportAddress, UsedAddresses;
  }

  lemma AddedOne(was: Import, serverId: nat, p: PeerStatus, i: nat)
    requires ImportOne(was, serverId, p).Ok?
    requires |was.table.rows| <= i < |ImportOne(was, serverId, p).value.table.rows|
    ensures Faithful(ImportOne(was, serverId, p).value.table.rows[i], serverId, p)
  {
    hide Faithful, DeriveImportAddress, UsedAddresses;
    ImportOneFaithful(was, serverId, p);
  }

  lemma ProgressOfOne(was: Import, serverId: nat, p: PeerStatus)
    ensures ImportOne(was, serverId, p).Ok? ==> was.table.rows <= ImportOne(was, serverId, p).value.table.rows
  {
    hide DeriveImportAddress, UsedAddresses;
  }

  lemma ImportOneFaithful(was: Import, serverId: nat, p: PeerStatus)
    requires !Skipped(was.table.rows, serverId, p) && ImportOne(was, serverId, p).Ok?
    ensures var rows := ImportOne(was, serverId, p).value.table.rows;
            |rows| == |was.table.rows| + 1 && Faithful(rows[|was.table.rows|], serverId, p)
  {
    hide SingleHost, Trim, UsedAddresses;
  }

  // ---------------------------------------------------------------- the loop of the source

  method ImportPeer(devices: DeviceRepo, serverId: nat, p: PeerStatus, address: ImportAddress)
    returns (r: Result<nat, DbError>)
    modifies devices
    ensures match Insert(old(devices.State()), ImportedRow(serverId, p, address))
            case Ok(t) => devices.State() == t && r.Ok?
            case Err(e) => devices.State() == old(devices.State()) && r == Err(e)
  {
    r := devices.Create(ImportedRow(serverId, p, address));
  }

  lemma {:induction false} FailureStays(t: Table, serverId: nat, peers: seq<PeerStatus>, k: nat)
    requires k <= |peers| && ImportAll(t, serverId, peers[..k]).Err?
    ensures ImportAll(t, serverId, peers) == ImportAll(t, serverId, peers[..k])
    decreases |peers|
  {
    if k == |peers| {
      assert peers[..k] == peers;
    } else {
      var init := peers[..|peers| - 1];
      assert init[..k] == peers[..k];
      FailureStays(t, serverId, init, k);
    }
  }

  lemma ImportNone(t: Table, serverId: nat)
    ensures ImportAll(t, serverId, []) == Ok(Import(t, 0))
  {
  }

  lemma ImportAllNext(t: Table, serverId: nat, peers: seq<PeerStatus>, i: nat, done: Import)
    requires i < |peers| && ImportAll(t, serverId, peers[..i]) == Ok(done)
    ensures ImportAll(t, serverId, peers[..i + 1]) == ImportOne(done, serverId, peers[i])
  {
    hide ImportOne;
    assert peers[..i + 1][..i] == peers[..i];
  }

  lemma UsedAppend(rows: seq<DeviceRow>, row: DeviceRow, serverId: nat)
    ensures UsedAddresses(rows + [row], serverId) == UsedAddresses(rows, serverId) + AddressesOf(row, serverId)
  {
    assert (rows + [row])[..|rows|] == rows;
  }

  /**
   The loop keeps its own `used` list equal to the table's tunnel addresses, so
   it never has to read them again. By `ImportExact` it does not fail on a table
   that meets its invariant.
   */
  method ImportLivePeers(devices: DeviceRepo, serverId: nat, peers: seq<PeerStatus>)
    returns (r: Result<nat, DbError>)
    modifies devices
    ensures r.Ok? <==> ImportAll(old(devices.State()), serverId, peers).Ok?
    ensures r.Ok? ==> ImportAll(old(devices.State()), serverId, peers) == Ok(Import(devices.State(), r.value))
  {
    hide DeriveImportAddress, ImportAll, UsedAddresses, Clashes, Tracks;
    ghost var start := devices.State();
    assert ImportAll(start, serverId, peers[..0]) == Ok(Import(start, 0)) by { ImportNone(start, serverId); }
    var imported := 0;
    var used := devices.UsedAddressList(serverId);
    for i := 0 to |peers|
      invariant ImportAll(start, serverId, peers[..i]) == Ok(Import(devices.State(), imported))
      invariant used == UsedAddresses(devices.rows, serverId)
    {
      var p := peers[i];
      ghost var was := devices.rows;
      ImportAllNext(start, serverId, peers, i, Import(devices.State(), imported));
      if p.publicKey == "" {
        continue;
      }
      var known := devices.GetByPublicKey(serverId, p.publicKey);
      if known.Some? {
        continue;
      }
      var address := DeriveImportAddress(p.allowedIps, used);
      var created := ImportPeer(devices, serverId, p, address);
      if created.Err? {
        FailureStays(start, serverId, peers, i + 1);
        return Err(created.error);
      }
      UsedAppend(was, devices.rows[|was|], serverId);
      if address.tunnelAddress.Some? {
        used := used + [address.tunnelAddress.value];
      }
      imported := imported + 1;
    }
    assert peers[..|peers|] == peers;
    r := Ok(imported);
  }
}
