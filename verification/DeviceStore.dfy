/**
 The device table (backend/src/store/devices.ts). Rows stand in the order they
 were inserted; ids are drawn from a counter, which makes them fresh. The table
 functions say what each query or update does; `DeviceRepo` performs them.
 */
module DeviceStore {
  import opened Wrappers
  import opened Lookup
  import opened Text
  import opened Net

  datatype Kind = Peer | Host

  datatype Origin = Created | Imported

  datatype Management = Managed | NeedsReview

  datatype DeviceRow = DeviceRow(
    id: nat,
    serverId: nat,
    name: string,
    kind: Kind,
    segmentId: Option<string>,
    macAddress: Option<string>,
    tunnelAddress: Option<string>,
    publicKey: Option<string>,
    privateKey: Option<string>,
    sshTargetId: Option<string>,
    origin: Origin,
    management: Management,
    allowedIps: Option<string>)

  /** The unique index on (server_id, tunnel_address), or a foreign key, refused a write. */
  datatype DbError = UniqueViolation | ForeignKeyViolation

  /** What a device row may refer to: the LAN segments, each with its server, and the SSH targets. */
  datatype Refs = Refs(segments: map<string, nat>, targets: set<string>)

  datatype Table = Table(rows: seq<DeviceRow>, nextId: nat, refs: Refs)

  const EMPTY := Table([], 0, Refs(map[], {}))

  /** JavaScript truthiness of a nullable string. */
  predicate Truthy(text: Option<string>) {
    text.Some? && text.value != ""
  }

  // ---------------------------------------------------------------- queries

  function DeviceId(row: DeviceRow): nat {
    row.id
  }

  function Find(rows: seq<DeviceRow>, id: nat): (r: Option<nat>)
    ensures r.Some? ==> r.value < |rows| && rows[r.value].id == id
    ensures r.None? ==> forall i :: 0 <= i < |rows| ==> rows[i].id != id
  {
    FindBy(rows, id, DeviceId)
  }

  predicate HasKey(row: DeviceRow, serverId: nat, key: string) {
    row.serverId == serverId && row.publicKey == Some(key)
  }

  /** `getByPublicKey` finds a row. */
  predicate Tracks(rows: seq<DeviceRow>, serverId: nat, key: string) {
    exists i :: 0 <= i < |rows| && HasKey(rows[i], serverId, key)
  }

  predicate HasAddress(row: DeviceRow, serverId: nat, address: string) {
    row.serverId == serverId && row.tunnelAddress == Some(address)
  }

  function AddressesOf(row: DeviceRow, serverId: nat): seq<string> {
    if row.serverId == serverId && row.tunnelAddress.Some? then [row.tunnelAddress.value] else []
  }

  function UsedAddresses(rows: seq<DeviceRow>, serverId: nat): seq<string> {
    if rows == [] then []
    else UsedAddresses(rows[..|rows| - 1], serverId) + AddressesOf(rows[|rows| - 1], serverId)
  }

  /** The non-blank entries of a comma-separated list, trimmed. */
  function Entries(list: string): seq<string> {
    NonBlank(TrimAll(Split(list, ',')))
  }

  function CidrsOf(row: DeviceRow, serverId: nat): seq<string> {
    if row.serverId != serverId || row.kind != Peer then []
    else
      (if Truthy(row.tunnelAddress) then [row.tunnelAddress.value + "/32"] else []) +
      (if Truthy(row.allowedIps) then Entries(row.allowedIps.value) else [])
  }

  function UsedCidrs(rows: seq<DeviceRow>, serverId: nat): seq<string> {
    if rows == [] then []
    else UsedCidrs(rows[..|rows| - 1], serverId) + CidrsOf(rows[|rows| - 1], serverId)
  }

  // ---------------------------------------------------------------- updates

  predicate Clashes(rows: seq<DeviceRow>, row: DeviceRow) {
    row.tunnelAddress.Some? && exists i :: 0 <= i < |rows| && HasAddress(rows[i], row.serverId, row.tunnelAddress.value)
  }

  predicate SegmentKnown(segmentId: Option<string>, refs: Refs) {
    segmentId.Some? ==> segmentId.value in refs.segments
  }

  predicate TargetKnown(targetId: Option<string>, targets: set<string>) {
    targetId.Some? ==> targetId.value in targets
  }

  /** The foreign keys of a row, which the database enforces. */
  predicate RefsKnown(row: DeviceRow, refs: Refs) {
    SegmentKnown(row.segmentId, refs) && TargetKnown(row.sshTargetId, refs.targets)
  }

  /** `INSERT INTO device`, refused on a repeated address and on a reference to nothing. */
  function Insert(t: Table, row: DeviceRow): Result<Table, DbError> {
    if Clashes(t.rows, row) then Err(UniqueViolation)
    else if !RefsKnown(row, t.refs) then Err(ForeignKeyViolation)
    else Ok(t.(rows := t.rows + [row.(id := t.nextId)], nextId := t.nextId + 1))
  }

  /** The updates of one row: `adopt`, `rotateKeys`, and the columns `update` writes. */
  datatype Change =
    | Adopt(name: string)
    | Rekey(publicKey: string, privateKey: string)
    | Patch(name: string, segmentId: Option<string>, macAddress: Option<string>, sshTargetId: Option<string>)

  function Changed(row: DeviceRow, change: Change): DeviceRow {
    match change
    case Adopt(name) => row.(name := name, management := Managed)
    case Rekey(publicKey, privateKey) => row.(publicKey := Some(publicKey), privateKey := Some(privateKey))
    case Patch(name, segmentId, macAddress, sshTargetId) =>
      row.(name := name, segmentId := segmentId, macAddress := macAddress, sshTargetId := sshTargetId)
  }

  /** The rows after an `UPDATE device ... WHERE id = ?`. */
  function Edited(rows: seq<DeviceRow>, id: nat, change: Change): seq<DeviceRow> {
    match Find(rows, id)
    case None => rows
    case Some(i) => rows[i := Changed(rows[i], change)]
  }

  /** The update itself; a patch writes the referring columns, so the foreign keys are checked. */
  function Edit(t: Table, id: nat, change: Change): Result<Table, DbError> {
    match Find(t.rows, id)
    case None => Ok(t)
    case Some(i) =>
      if change.Patch? && !RefsKnown(Changed(t.rows[i], change), t.refs) then Err(ForeignKeyViolation)
      else Ok(t.(rows := Edited(t.rows, id, change)))
  }

  function Removed(rows: seq<DeviceRow>, id: nat): seq<DeviceRow> {
    match Find(rows, id)
    case None => rows
    case Some(i) => rows[..i] + rows[i + 1..]
  }

  /** The rows that `ON DELETE CASCADE` leaves when a server goes. */
  function WithoutServer(rows: seq<DeviceRow>, serverId: nat): seq<DeviceRow> {
    if rows == [] then []
    else
      WithoutServer(rows[..|rows| - 1], serverId) +
      (if rows[|rows| - 1].serverId == serverId then [] else [rows[|rows| - 1]])
  }

  /** `ON DELETE SET NULL`: a reference to what is gone is cleared. */
  function Cleared(row: DeviceRow, refs: Refs): DeviceRow {
    row.(segmentId := if SegmentKnown(row.segmentId, refs) then row.segmentId else None,
         sshTargetId := if TargetKnown(row.sshTargetId, refs.targets) then row.sshTargetId else None)
  }

  function ClearedRows(rows: seq<DeviceRow>, refs: Refs): (r: seq<DeviceRow>)
    ensures |r| == |rows| && forall i :: 0 <= i < |rows| ==> r[i] == Cleared(rows[i], refs)
  {
    seq(|rows|, i requires 0 <= i < |rows| => Cleared(rows[i], refs))
  }

  /** Segments and SSH targets come and go. */
  function Referring(t: Table, refs: Refs): Table {
    t.(rows := ClearedRows(t.rows, refs), refs := refs)
  }

  function WithoutSegments(refs: Refs, serverId: nat): Refs {
    refs.(segments := map id | id in refs.segments && refs.segments[id] != serverId :: refs.segments[id])
  }

  /** Deleting a server takes its devices and its segments along. */
  function ServerDropped(t: Table, serverId: nat): Table {
    Referring(t.(rows := WithoutServer(t.rows, serverId)), WithoutSegments(t.refs, serverId))
  }

  // ---------------------------------------------------------------- the invariant

  /** The text of a stored tunnel address: digits, dots and white space, no `/`, no `=`. */
  predicate AddressText(s: string) {
    s != "" && AddressChars(s)
  }

  /** Only peers carry WireGuard columns, and none of those is an empty text. */
  predicate RowOk(row: DeviceRow) {
    && (row.kind == Host ==> row.tunnelAddress == None && row.publicKey == None && row.allowedIps == None)
    && (row.tunnelAddress.Some? ==> AddressText(row.tunnelAddress.value))
    && (row.publicKey.Some? ==> row.publicKey.value != "")
    && (row.allowedIps.Some? ==> row.allowedIps.value != "")
  }

  /** A row and a later one: two rows of one server share neither a tunnel address nor a public key. */
  predicate Apart(a: DeviceRow, b: DeviceRow) {
    && a.id < b.id
    && (a.serverId == b.serverId && a.tunnelAddress.Some? ==> a.tunnelAddress != b.tunnelAddress)
    && (a.serverId == b.serverId && a.publicKey.Some? ==> a.publicKey != b.publicKey)
  }

  predicate TableOk(t: Table) {
    && (forall i :: 0 <= i < |t.rows| ==> RowOk(t.rows[i]) && RefsKnown(t.rows[i], t.refs) && t.rows[i].id < t.nextId)
    && (forall i, j :: 0 <= i < j < |t.rows| ==> Apart(t.rows[i], t.rows[j]))
  }

  // ---------------------------------------------------------------- what the queries mean

  lemma {:induction false} UsedAddressesExact(rows: seq<DeviceRow>, serverId: nat, address: string)
    ensures address in UsedAddresses(rows, serverId) <==>
            exists i :: 0 <= i < |rows| && HasAddress(rows[i], serverId, address)
  {
    if rows != [] {
      var init, last := rows[..|rows| - 1], rows[|rows| - 1];
      UsedAddressesExact(init, serverId, address);
      if HasAddress(last, serverId, address) {
        assert rows[|rows| - 1] == last;
      }
      if i :| 0 <= i < |init| && HasAddress(init[i], serverId, address) {
        assert rows[i] == init[i];
      }
      if i :| 0 <= i < |rows| && HasAddress(rows[i], serverId, address) {
        assert i < |init| ==> init[i] == rows[i];
      }
    }
  }

  lemma EntriesExact(list: string, entry: string)
    ensures entry in Entries(list) <==> entry != "" && exists part :: part in Split(list, ',') && entry == Trim(part)
  {
    hide Split, Trim;
    var parts := Split(list, ',');
    NonBlankExact(TrimAll(parts), entry);
    if part :| part in parts && entry == Trim(part) {
      var i :| 0 <= i < |parts| && parts[i] == part;
      assert TrimAll(parts)[i] == entry;
    }
    if i :| 0 <= i < |parts| && TrimAll(parts)[i] == entry {
      assert parts[i] in parts;
    }
  }

  /** What a row puts into use: its host with a mask, and the parts of its AllowedIPs that are not blank. */
  predicate Occupies(row: DeviceRow, entry: string) {
    || (Truthy(row.tunnelAddress) && entry == row.tunnelAddress.value + "/32")
    || (row.allowedIps.Some? && entry != ""
        && exists part :: part in Split(row.allowedIps.value, ',') && entry == Trim(part))
  }

  lemma CidrsOfExact(row: DeviceRow, serverId: nat, entry: string)
    ensures entry in CidrsOf(row, serverId) <==> row.serverId == serverId && row.kind == Peer && Occupies(row, entry)
  {
    hide Split, Trim, Entries;
    if row.allowedIps.Some? {
      EntriesExact(row.allowedIps.value, entry);
      NothingListed(entry);
    }
  }

  lemma NothingListed(entry: string)
    ensures entry !in Entries("")
  {
    EntriesExact("", entry);
    assert Split("", ',') == [""];
  }

  /** What is in use on a server: just what its peers put into use. */
  lemma {:induction false} UsedCidrsExact(rows: seq<DeviceRow>, serverId: nat, entry: string)
    ensures entry in UsedCidrs(rows, serverId) <==>
            exists row :: row in rows && row.serverId == serverId && row.kind == Peer && Occupies(row, entry)
  {
    hide Occupies, CidrsOf;
    if rows != [] {
      var init, last := rows[..|rows| - 1], rows[|rows| - 1];
      assert rows == init + [last];
      UsedCidrsExact(init, serverId, entry);
      CidrsOfExact(last, serverId, entry);
    }
  }

  /** The cascade removes exactly the rows of that server. */
  lemma {:induction false} WithoutServerExact(rows: seq<DeviceRow>, serverId: nat, row: DeviceRow)
    ensures row in WithoutServer(rows, serverId) <==> row in rows && row.serverId != serverId
  {
    if rows != [] {
      WithoutServerExact(rows[..|rows| - 1], serverId, row);
      assert rows == rows[..|rows| - 1] + [rows[|rows| - 1]];
    }
  }

  lemma {:induction false} WithoutServerKeepsOk(t: Table, serverId: nat)
    requires TableOk(t)
    ensures TableOk(t.(rows := WithoutServer(t.rows, serverId)))
    decreases |t.rows|
  {
    if t.rows != [] {
      var init := t.rows[..|t.rows| - 1];
      assert forall i :: 0 <= i < |init| ==> init[i] == t.rows[i];
      WithoutServerKeepsOk(t.(rows := init), serverId);
      forall row | row in WithoutServer(init, serverId)
        ensures Apart(row, t.rows[|t.rows| - 1])
      {
        WithoutServerExact(init, serverId, row);
        var i :| 0 <= i < |init| && init[i] == row;
        assert t.rows[i] == row;
      }
      var kept := WithoutServer(init, serverId);
      assert forall i :: 0 <= i < |kept| ==> kept[i] in kept;
    }
  }

  /** A row after some of what it may refer to has gone: only a reference to that is lost. */
  predicate OnlyLoses(after: DeviceRow, before: DeviceRow, refs: Refs) {
    && after == before.(segmentId := after.segmentId, sshTargetId := after.sshTargetId)
    && RefsKnown(after, refs)
    && (SegmentKnown(before.segmentId, refs) ==> after.segmentId == before.segmentId)
    && (!SegmentKnown(before.segmentId, refs) ==> after.segmentId == None)
    && (TargetKnown(before.sshTargetId, refs.targets) ==> after.sshTargetId == before.sshTargetId)
    && (!TargetKnown(before.sshTargetId, refs.targets) ==> after.sshTargetId == None)
  }

  /** Whatever segments and targets remain, clearing keeps every reference known and takes no other away. */
  lemma ReferringKeepsOk(t: Table, refs: Refs)
    requires TableOk(t)
    ensures TableOk(Referring(t, refs))
    ensures Referring(t, refs) == Table(Referring(t, refs).rows, t.nextId, refs)
    ensures |Referring(t, refs).rows| == |t.rows|
    ensures forall i :: 0 <= i < |t.rows| ==> OnlyLoses(Referring(t, refs).rows[i], t.rows[i], refs)
  {
    hide AddressText;
    var rows := ClearedRows(t.rows, refs);
    forall i, j | 0 <= i < j < |rows|
      ensures Apart(rows[i], rows[j])
    {
      assert Apart(t.rows[i], t.rows[j]);
    }
  }

  /** The row without its segment, when that is one of the server's. */
  function Unplaced(row: DeviceRow, segments: map<string, nat>, serverId: nat): DeviceRow {
    if row.segmentId.Some? && row.segmentId.value in segments && segments[row.segmentId.value] == serverId
    then row.(segmentId := None)
    else row
  }

  /**
   A server takes exactly its own rows and segments along. A row of another
   server loses at most its segment, when that was one of those, and nothing else
   changes; ids ascend before and after, so the order is kept as well.
   */
  lemma ServerDroppedExact(t: Table, serverId: nat)
    requires TableOk(t)
    ensures var after := ServerDropped(t, serverId);
            && TableOk(after) && after.nextId == t.nextId && after.refs.targets == t.refs.targets
            && (forall row :: row in after.rows <==>
                  exists before :: before in t.rows && before.serverId != serverId
                                && row == Unplaced(before, t.refs.segments, serverId))
            && (forall id :: id in after.refs.segments <==>
                  id in t.refs.segments && t.refs.segments[id] != serverId)
            && (forall id :: id in after.refs.segments ==> after.refs.segments[id] == t.refs.segments[id])
  {
    hide TableOk;
    WithoutServerKeepsOk(t, serverId);
    var left := t.(rows := WithoutServer(t.rows, serverId));
    var kept := WithoutSegments(t.refs, serverId);
    ReferringKeepsOk(left, kept);
    var after := ServerDropped(t, serverId);
    forall i | 0 <= i < |left.rows|
      ensures after.rows[i] == Unplaced(left.rows[i], t.refs.segments, serverId)
      ensures left.rows[i] in t.rows && left.rows[i].serverId != serverId
    {
      WithoutServerExact(t.rows, serverId, left.rows[i]);
      KnownRefs(t, left.rows[i]);
    }
    forall before | before in t.rows && before.serverId != serverId
      ensures Unplaced(before, t.refs.segments, serverId) in after.rows
    {
      WithoutServerExact(t.rows, serverId, before);
      var i :| 0 <= i < |left.rows| && left.rows[i] == before;
      assert after.rows[i] == Unplaced(before, t.refs.segments, serverId);
    }
  }

  lemma KnownRefs(t: Table, row: DeviceRow)
    requires TableOk(t) && row in t.rows
    ensures RefsKnown(row, t.refs)
  {
    hide RowOk, Apart, RefsKnown;
  }

  // ---------------------------------------------------------------- the repository

  /** The inner loop of `usedCidrs`: split, trim, keep what is left. */
  method EntryList(list: string) returns (out: seq<string>)
    ensures out == Entries(list)
  {
    out := [];
    var parts := Split(list, ',');
    ghost var trimmed := TrimAll(parts);
    for i := 0 to |parts|
      invariant out == NonBlank(trimmed[..i])
    {
      assert trimmed[..i + 1][..i] == trimmed[..i];
      if Trim(parts[i]) != "" {
        out := out + [Trim(parts[i])];
      }
    }
    assert trimmed[..|parts|] == trimmed;
  }

  class DeviceRepo {
    var rows: seq<DeviceRow>
    var nextId: nat
    var refs: Refs

    ghost function State(): Table
      reads this
    {
      Table(rows, nextId, refs)
    }

    ghost predicate Valid()
      reads this
    {
      TableOk(State())
    }

    constructor ()
      ensures Valid() && State() == EMPTY
    {
      rows, nextId, refs := [], 0, Refs(map[], {});
    }

    method Get(id: nat) returns (row: Option<DeviceRow>)
      ensures match Find(rows, id) case None => row == None case Some(i) => row == Some(rows[i])
    {
      match Find(rows, id)
      case None => row := None;
      case Some(i) => row := Some(rows[i]);
    }

    method GetByPublicKey(serverId: nat, key: string) returns (row: Option<DeviceRow>)
      ensures row.Some? <==> Tracks(rows, serverId, key)
      ensures row.Some? ==> row.value in rows && HasKey(row.value, serverId, key)
    {
      for i := 0 to |rows|
        invariant forall j :: 0 <= j < i ==> !HasKey(rows[j], serverId, key)
      {
        if HasKey(rows[i], serverId, key) {
          return Some(rows[i]);
        }
      }
      row := None;
    }

    method UsedAddressList(serverId: nat) returns (used: seq<string>)
      ensures used == UsedAddresses(rows, serverId)
    {
      used := [];
      for i := 0 to |rows|
        invariant used == UsedAddresses(rows[..i], serverId)
      {
        assert rows[..i + 1][..i] == rows[..i];
        if rows[i].serverId == serverId && rows[i].tunnelAddress.Some? {
          used := used + [rows[i].tunnelAddress.value];
        }
      }
      assert rows[..|rows|] == rows;
    }

    method UsedCidrList(serverId: nat) returns (out: seq<string>)
      ensures out == UsedCidrs(rows, serverId)
    {
      hide Entries;
      out := [];
      for i := 0 to |rows|
        invariant out == UsedCidrs(rows[..i], serverId)
      {
        assert rows[..i + 1][..i] == rows[..i];
        var own: seq<string> := [];
        var row := rows[i];
        if row.serverId == serverId && row.kind == Peer {
          if Truthy(row.tunnelAddress) {
            own := [row.tunnelAddress.value + "/32"];
          }
          if Truthy(row.allowedIps) {
            var entries := EntryList(row.allowedIps.value);
            own := own + entries;
          }
        }
        assert own == CidrsOf(row, serverId);
        out := out + own;
      }
      assert rows[..|rows|] == rows;
    }

    method Create(row: DeviceRow) returns (r: Result<nat, DbError>)
      modifies this
      ensures match Insert(old(State()), row)
              case Ok(t) => State() == t && r == Ok(old(nextId))
              case Err(e) => State() == old(State()) && r == Err(e)
    {
      if Clashes(rows, row) {
        return Err(UniqueViolation);
      }
      if !RefsKnown(row, refs) {
        return Err(ForeignKeyViolation);
      }
      rows := rows + [row.(id := nextId)];
      nextId := nextId + 1;
      r := Ok(nextId - 1);
    }

    method Update(id: nat, change: Change) returns (r: Result<(), DbError>)
      modifies this
      ensures match Edit(old(State()), id, change)
              case Ok(t) => State() == t && r == Ok(())
              case Err(e) => State() == old(State()) && r == Err(e)
    {
      match Find(rows, id)
      case None => r := Ok(());
      case Some(i) =>
        var row := Changed(rows[i], change);
        if change.Patch? && !RefsKnown(row, refs) {
          return Err(ForeignKeyViolation);
        }
        rows := rows[i := row];
        r := Ok(());
    }

    method Delete(id: nat) returns (deleted: bool)
      modifies this
      ensures State() == old(State()).(rows := Removed(old(rows), id))
      ensures deleted <==> Find(old(rows), id).Some?
    {
      match Find(rows, id)
      case None => deleted := false;
      case Some(i) =>
        rows := rows[..i] + rows[i + 1..];
        deleted := true;
    }

    /** `ON DELETE SET NULL` on every row, when segments or SSH targets go. */
    method Refer(kept: Refs)
      modifies this
      ensures State() == Referring(old(State()), kept)
    {
      for i := 0 to |rows|
        invariant |rows| == |old(rows)| && nextId == old(nextId)
        invariant rows == ClearedRows(old(rows)[..i], kept) + old(rows)[i..]
      {
        rows := rows[i := Cleared(rows[i], kept)];
      }
      assert rows == ClearedRows(old(rows), kept);
      refs := kept;
    }

    /** The cascades when a server goes: its devices, then its segments with the references to them. */
    method DeleteByServer(serverId: nat)
      modifies this
      ensures State() == ServerDropped(old(State()), serverId)
    {
      var kept: seq<DeviceRow> := [];
      for i := 0 to |rows|
        invariant rows == old(rows) && nextId == old(nextId) && refs == old(refs)
        invariant kept == WithoutServer(rows[..i], serverId)
      {
        assert rows[..i + 1][..i] == rows[..i];
        if rows[i].serverId != serverId {
          kept := kept + [rows[i]];
        }
      }
      assert rows[..|rows|] == rows;
      rows := kept;
      Refer(WithoutSegments(refs, serverId));
    }
  }
}
