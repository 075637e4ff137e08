/**
 Device orchestration (backend/src/devices/service.ts): adding peers and hosts,
 adopting, editing, rotating keys and removing, as steps on the device table;
 and what every run of those steps, mixed with imports, keeps.
 */
module DeviceService {
  import opened Wrappers
  import Lookup
  import opened Text
  import opened Net
  import opened DeviceStore
  import opened Status
  import opened PeerImport

  datatype ServiceError =
    | NotFound
    | Validation
    | AddressInUse
    | AddressExhausted
    | AddressConflict
    | Internal
    | Database(cause: DbError)

  datatype CreateInput = CreateInput(
    name: string,
    kind: Kind,
    segmentId: Option<string>,
    macAddress: Option<string>,
    sshTargetId: Option<string>,
    tunnelAddress: Option<string>)

  /** A patch: an absent field is None, a field set to null is Some(None). */
  datatype UpdateInput = UpdateInput(
    name: Option<string>,
    segmentId: Option<Option<string>>,
    macAddress: Option<Option<string>>,
    sshTargetId: Option<Option<string>>)

  datatype KeyPair = KeyPair(publicKey: string, privateKey: string)

  predicate BadMac(mac: Option<string>) {
    Truthy(mac) && !IsMac(mac.value)
  }

  // ---------------------------------------------------------------- the steps

  /** The address of a new peer: the operator's if given, else the first free one. */
  function ChosenAddress(range: string, wanted: Option<string>, used: seq<string>): Result<string, ServiceError> {
    if Truthy(wanted) then
      match Validate(range, wanted.value, used)
      case Err(_) => Err(Internal)
      case Ok(Rejected(InUse)) => Err(AddressInUse)
      case Ok(Rejected(_)) => Err(Validation)
      case Ok(Accepted) => Ok(Before(wanted.value, '/'))
    else
      match Allocated(range, used)
      case Ok(a) => Ok(a)
      case Err(_) => Err(AddressExhausted)
  }

  function NewRow(serverId: nat, input: CreateInput, address: Option<string>, keys: Option<KeyPair>): DeviceRow {
    DeviceRow(0, serverId, input.name, input.kind, input.segmentId, input.macAddress, address,
              if keys.Some? then Some(keys.value.publicKey) else None,
              if keys.Some? then Some(keys.value.privateKey) else None,
              input.sshTargetId, Created, Managed, None)
  }

  function Inserted(t: Table, row: DeviceRow): Result<Table, ServiceError> {
    match Insert(t, row)
    case Ok(t') => Ok(t')
    case Err(e) => Err(Database(e))
  }

  /** `add`; `range` is the server's address range, None when there is no such server. */
  function AddDevice(t: Table, serverId: nat, range: Option<string>, input: CreateInput, keys: KeyPair)
    : Result<Table, ServiceError>
  {
    if range.None? then Err(NotFound)
    else if BadMac(input.macAddress) then Err(Validation)
    else
      match input.kind
      case Host => Inserted(t, NewRow(serverId, input, None, None))
      case Peer =>
        match ChosenAddress(range.value, input.tunnelAddress, UsedCidrs(t.rows, serverId))
        case Err(e) => Err(e)
        case Ok(address) => Inserted(t, NewRow(serverId, input, Some(address), Some(keys)))
  }

  /** Another managed device of the server holds the same address. */
  predicate ManagedConflict(rows: seq<DeviceRow>, row: DeviceRow) {
    Truthy(row.tunnelAddress) &&
    exists i :: 0 <= i < |rows| && rows[i].id != row.id && rows[i].management == Managed
                && HasAddress(rows[i], row.serverId, row.tunnelAddress.value)
  }

  /** What a call leaves behind and what it reports: an error need not mean that nothing was written. */
  datatype Effect = Effect(table: Table, error: Option<ServiceError>)

  /** `adopt` writes twice, without a transaction: the name and state first, then the segment. */
  function AdoptDevice(t: Table, id: nat, name: string, segmentId: Option<Option<string>>): Effect {
    match Find(t.rows, id)
    case None => Effect(t, Some(NotFound))
    case Some(i) =>
      var row := t.rows[i];
      if row.management != NeedsReview then Effect(t, Some(Validation))
      else if ManagedConflict(t.rows, row) then Effect(t, Some(AddressConflict))
      else
        var adopted := t.(rows := Edited(t.rows, id, Change.Adopt(name)));
        match segmentId
        case None => Effect(adopted, None)
        case Some(s) =>
          match Edit(adopted, id, Patch(name, s, row.macAddress, row.sshTargetId))
          case Ok(t') => Effect(t', None)
          case Err(e) => Effect(adopted, Some(Database(e)))
  }

  function PatchFor(row: DeviceRow, patch: UpdateInput): Change {
    Patch(if patch.name.Some? then patch.name.value else row.name,
          if patch.segmentId.Some? then patch.segmentId.value else row.segmentId,
          if patch.macAddress.Some? then patch.macAddress.value else row.macAddress,
          if patch.sshTargetId.Some? then patch.sshTargetId.value else row.sshTargetId)
  }

  function UpdateDevice(t: Table, id: nat, patch: UpdateInput): Result<Table, ServiceError> {
    match Find(t.rows, id)
    case None => Err(NotFound)
    case Some(i) =>
      if patch.macAddress.Some? && BadMac(patch.macAddress.value) then Err(Validation)
      else
        match Edit(t, id, PatchFor(t.rows[i], patch))
        case Ok(t') => Ok(t')
        case Err(e) => Err(Database(e))
  }

  function RotateDevice(t: Table, id: nat, keys: KeyPair): Result<Table, ServiceError> {
    match Find(t.rows, id)
    case None => Err(NotFound)
    case Some(i) =>
      if t.rows[i].kind != Peer then Err(Validation)
      else Ok(t.(rows := Edited(t.rows, id, Rekey(keys.publicKey, keys.privateKey))))
  }

  function RemoveDevice(t: Table, id: nat): Result<Table, ServiceError> {
    if Find(t.rows, id).None? then Err(NotFound) else Ok(t.(rows := Removed(t.rows, id)))
  }

  // ---------------------------------------------------------------- what a new address is

  /** What `add` stores names the very address it checked. */
  lemma StoredNamesChecked(address: string)
    ensures IpToIntSafe(Before(address, '/')) == IpToIntSafe(HostPart(address))
  {
    hide Trim, IpToIntSafe;
    var pre, post := TrimParts(address);
    var core := Trim(address);
    assert '/' !in pre && '/' !in post;
    assert address == pre + (core + post);
    BeforePrefix(pre, core + post, '/');
    BeforeSuffix(core, post, '/');
    var host := Before(core, '/');
    if '/' in core {
      assert Before(address, '/') == pre + host + "";
      PaddedIp(pre, host, "");
    } else {
      assert Before(address, '/') == pre + host + post;
      PaddedIp(pre, host, post);
    }
  }

  lemma {:induction false} BeforePrefix(pre: string, s: string, sep: char)
    requires sep !in pre
    ensures Before(pre + s, sep) == pre + Before(s, sep)
  {
    if pre == "" {
      assert pre + s == s;
    } else {
      assert (pre + s)[1..] == pre[1..] + s;
      BeforePrefix(pre[1..], s, sep);
    }
  }

  lemma {:induction false} BeforeSuffix(s: string, post: string, sep: char)
    requires sep !in post
    ensures Before(s + post, sep) == if sep in s then Before(s, sep) else s + post
    ensures sep !in s ==> Before(s, sep) == s
  {
    if s == "" {
      assert s + post == post;
      SplitHead(post, sep);
    } else {
      assert (s + post)[1..] == s[1..] + post;
      BeforeSuffix(s[1..], post, sep);
    }
  }

  /** The chosen address is assignable in the server's range; when picked for the operator it is the least one. */
  lemma ChosenIsAssignable(range: string, wanted: Option<string>, used: seq<string>)
    requires ChosenAddress(range, wanted, used).Ok?
    ensures ParseCidr(range).Ok?
    ensures exists n: nat :: && IpToIntSafe(ChosenAddress(range, wanted, used).value) == Some(n)
                             && Assignable(n, ParseCidr(range).value, used)
                             && (!Truthy(wanted) ==>
                                   forall m: nat :: Assignable(m, ParseCidr(range).value, used) ==> n <= m)
  {
    hide Validate, Allocated, IpToIntSafe, ParseCidr, IntToIp, Assignable, HostPart, Split, Before;
    if Truthy(wanted) {
      ValidateExact(range, wanted.value, used);
      StoredNamesChecked(wanted.value);
    } else {
      AllocatedNeedsRange(range, used);
      AllocatedExact(range, used);
      var n: nat :| n < Bits.TWO32 && Allocated(range, used) == Ok(IntToIp(n))
                  && Assignable(n, ParseCidr(range).value, used)
                  && forall m: nat :: Assignable(m, ParseCidr(range).value, used) ==> n <= m;
      PrintParse(n);
    }
  }

  /**
   White space typed behind an assignable address, a newline too, is accepted and
   stored: this is how a stored text can differ from the canonical one.
   */
  lemma PaddingIsStored(range: string, n: nat, pad: string, used: seq<string>)
    requires ParseCidr(range).Ok? && Assignable(n, ParseCidr(range).value, used) && AllSpace(pad)
    ensures ChosenAddress(range, Some(IntToIp(n) + pad), used) == Ok(IntToIp(n) + pad)
  {
    hide Validate, IpToIntSafe, ParseCidr, IntToIp, Trim, Split, UsedRange;
    var typed := IntToIp(n) + pad;
    IntToIpShape(n);
    assert "" + IntToIp(n) + pad == typed;
    TrimPadded("", IntToIp(n), pad);
    SplitHead(IntToIp(n), '/');
    BeforeSuffix(typed, "", '/');
    PrintParse(n);
    ValidateExact(range, typed, used);
  }

  lemma AllocatedNeedsRange(range: string, used: seq<string>)
    ensures Allocated(range, used).Ok? ==> ParseCidr(range).Ok?
  {
    hide IntToIp, UsedRanges;
  }

  /** Some address of the range is still assignable. */
  ghost predicate HasRoom(range: string, used: seq<string>) {
    ParseCidr(range).Ok? && exists n: nat :: Assignable(n, ParseCidr(range).value, used)
  }

  lemma AllocatedSomething(range: string, used: seq<string>)
    ensures Allocated(range, used).Ok? <==> HasRoom(range, used)
  {
    hide Allocated, ParseCidr, Assignable;
    AllocatedNeedsRange(range, used);
    if ParseCidr(range).Ok? {
      AllocatedExact(range, used);
      if Allocated(range, used).Ok? {
        var n: nat :| Allocated(range, used) == Ok(IntToIp(n)) && Assignable(n, ParseCidr(range).value, used);
      }
    }
  }

  /** Every stored address of a peer is covered by the entries in use. */
  lemma StoredIsCovered(rows: seq<DeviceRow>, serverId: nat, i: nat, n: nat)
    requires i < |rows| && RowOk(rows[i]) && rows[i].serverId == serverId && rows[i].tunnelAddress.Some?
    requires IpToIntSafe(rows[i].tunnelAddress.value) == Some(n)
    ensures CoveredBy(n, UsedCidrs(rows, serverId))
  {
    hide IpToIntSafe, UsedCidrs, Denotes, Split, AddressChars;
    var entry := rows[i].tunnelAddress.value + "/32";
    assert rows[i] in rows && Occupies(rows[i], entry);
    UsedCidrsExact(rows, serverId, entry);
    StoredHostCovers(rows[i].tunnelAddress.value, n);
    UsedRangeExact(entry, n);
    var used := UsedCidrs(rows, serverId);
    var k :| 0 <= k < |used| && used[k] == entry;
  }

  /** The row has `n`: as its stored host, or in a part of its AllowedIPs. */
  predicate Holding(row: DeviceRow, n: nat) {
    || (row.tunnelAddress.Some? && IpToIntSafe(row.tunnelAddress.value) == Some(n))
    || (row.allowedIps.Some? && exists part :: part in Split(row.allowedIps.value, ',') && Denotes(part, n))
  }

  predicate HeldByNobody(rows: seq<DeviceRow>, serverId: nat, n: nat) {
    forall row :: row in rows && row.serverId == serverId && row.kind == Peer ==> !Holding(row, n)
  }

  /** What the in-use list covers is just what the server's peers hold. */
  lemma InUseExactly(t: Table, serverId: nat, n: nat)
    requires TableOk(t)
    ensures !CoveredBy(n, UsedCidrs(t.rows, serverId)) <==> HeldByNobody(t.rows, serverId, n)
  {
    hide TableOk, UsedCidrs, Denotes, Holding, Occupies;
    var used := UsedCidrs(t.rows, serverId);
    if k :| 0 <= k < |used| && Denotes(used[k], n) {
      UsedCidrsExact(t.rows, serverId, used[k]);
      var row :| row in t.rows && row.serverId == serverId && row.kind == Peer && Occupies(row, used[k]);
      EntryHolds(t, row, used[k], n);
    }
    if row :| row in t.rows && row.serverId == serverId && row.kind == Peer && Holding(row, n) {
      var entry := HeldEntry(t, row, n);
      UsedCidrsExact(t.rows, serverId, entry);
      var k :| 0 <= k < |used| && used[k] == entry;
    }
  }

  lemma EntryHolds(t: Table, row: DeviceRow, entry: string, n: nat)
    requires TableOk(t) && row in t.rows && Occupies(row, entry) && Denotes(entry, n)
    ensures Holding(row, n)
  {
    hide RefsKnown, Apart, IpToIntSafe, Split, Denotes;
    assert RowOk(row);
    if Truthy(row.tunnelAddress) && entry == row.tunnelAddress.value + "/32" {
      NoSlash(row.tunnelAddress.value);
      StoredHostDenotes(row.tunnelAddress.value, n);
    } else {
      var part :| part in Split(row.allowedIps.value, ',') && entry == Trim(part);
      TrimDenotes(part, n);
    }
  }

  /** The entry of the in-use list that accounts for a held address. */
  lemma HeldEntry(t: Table, row: DeviceRow, n: nat) returns (entry: string)
    requires TableOk(t) && row in t.rows && Holding(row, n)
    ensures Occupies(row, entry) && Denotes(entry, n)
  {
    hide RefsKnown, Apart, IpToIntSafe, Split, Denotes;
    assert RowOk(row);
    if row.tunnelAddress.Some? && IpToIntSafe(row.tunnelAddress.value) == Some(n) {
      entry := row.tunnelAddress.value + "/32";
      NoSlash(row.tunnelAddress.value);
      StoredHostDenotes(row.tunnelAddress.value, n);
    } else {
      var part :| part in Split(row.allowedIps.value, ',') && Denotes(part, n);
      entry := Trim(part);
      TrimDenotes(part, n);
      NothingDenoted(n);
    }
  }

  lemma NoSlash(address: string)
    requires AddressText(address)
    ensures '/' !in address
  {
  }

  lemma NothingDenoted(n: nat)
    ensures !Denotes("", n)
  {
    hide IpToIntSafe;
    NoBlankAddress();
  }

  lemma TrimDenotes(part: string, n: nat)
    ensures Denotes(Trim(part), n) <==> Denotes(part, n)
  {
    hide IpToIntSafe, ParseCidr, InBlock, Trim;
    var _, _ := TrimParts(part);
    TrimSolid(Trim(part));
  }

  /** A host of the server's range that `add` may give away. */
  predicate Vacant(rows: seq<DeviceRow>, serverId: nat, range: string, n: nat) {
    ParseCidr(range).Ok? && Inner(n, ParseCidr(range).value) && HeldByNobody(rows, serverId, n)
  }

  /** In the block, and neither its network, nor its second address, nor its broadcast address. */
  predicate Inner(n: nat, c: Cidr)
    requires c.prefix <= 32
  {
    InBlock(n, c) && n != c.base && n != c.base + 1 && n != c.base + Size(c) - 1
  }

  lemma VacantIsAssignable(t: Table, serverId: nat, range: string)
    requires TableOk(t)
    ensures forall n: nat :: Vacant(t.rows, serverId, range, n) <==>
              ParseCidr(range).Ok? && Assignable(n, ParseCidr(range).value, UsedCidrs(t.rows, serverId))
  {
    hide TableOk, UsedCidrs, ParseCidr, InBlock, HeldByNobody, CoveredBy;
    forall n: nat
      ensures CoveredBy(n, UsedCidrs(t.rows, serverId)) <==> !HeldByNobody(t.rows, serverId, n)
    {
      InUseExactly(t, serverId, n);
    }
  }

  /** Numerically new: no stored address of the server denotes `n`. */
  ghost predicate NumberFree(rows: seq<DeviceRow>, serverId: nat, n: nat) {
    forall i :: 0 <= i < |rows| && rows[i].serverId == serverId && rows[i].tunnelAddress.Some? ==>
      IpToIntSafe(rows[i].tunnelAddress.value) != Some(n)
  }

  /**
   A peer that `add` creates gets an address of the server's range outside every
   range in use at that moment, so different, as a text and as a number, from
   every stored address; hence the unique index never refuses it.
   */
  lemma AddedAddressIsNew(t: Table, serverId: nat, range: string, wanted: Option<string>)
    requires TableOk(t) && ChosenAddress(range, wanted, UsedCidrs(t.rows, serverId)).Ok?
    ensures var address := ChosenAddress(range, wanted, UsedCidrs(t.rows, serverId)).value;
            && AddressText(address)
            && address !in UsedAddresses(t.rows, serverId)
            && (Truthy(wanted) ==> address == Before(wanted.value, '/'))
            && exists n: nat :: && IpToIntSafe(address) == Some(n)
                                && Vacant(t.rows, serverId, range, n) && NumberFree(t.rows, serverId, n)
                                && (!Truthy(wanted) ==>
                                      forall m: nat :: Vacant(t.rows, serverId, range, m) ==> n <= m)
  {
    hide ChosenAddress, IpToIntSafe, ParseCidr, UsedCidrs, UsedAddresses, Assignable, Vacant, AddressText;
    var used := UsedCidrs(t.rows, serverId);
    var address := ChosenAddress(range, wanted, used).value;
    ChosenIsAssignable(range, wanted, used);
    var n: nat :| IpToIntSafe(address) == Some(n) && Assignable(n, ParseCidr(range).value, used)
               && (!Truthy(wanted) ==> forall m: nat :: Assignable(m, ParseCidr(range).value, used) ==> n <= m);
    VacantIsAssignable(t, serverId, range);
    CoveredIsUsed(n, ParseCidr(range).value, used);
    ParsedIsAddressText(address);
    forall i | 0 <= i < |t.rows| && t.rows[i].serverId == serverId && t.rows[i].tunnelAddress.Some?
      ensures IpToIntSafe(t.rows[i].tunnelAddress.value) != Some(n)
    {
      if IpToIntSafe(t.rows[i].tunnelAddress.value) == Some(n) {
        StoredIsCovered(t.rows, serverId, i, n);
      }
    }
    UsedAddressesExact(t.rows, serverId, address);
    assert NumberFree(t.rows, serverId, n);
    if Truthy(wanted) {
      ChosenAsWanted(range, wanted, used);
    }
  }

  lemma CoveredIsUsed(n: nat, c: Cidr, used: seq<string>)
    requires c.prefix <= 32 && Assignable(n, c, used)
    ensures !CoveredBy(n, used)
  {
    hide CoveredBy;
  }

  lemma ChosenAsWanted(range: string, wanted: Option<string>, used: seq<string>)
    requires Truthy(wanted) && ChosenAddress(range, wanted, used).Ok?
    ensures ChosenAddress(range, wanted, used).value == Before(wanted.value, '/')
  {
    hide Validate;
  }

  lemma ParsedIsAddressText(address: string)
    requires IpToIntSafe(address).Some?
    ensures AddressText(address)
  {
    hide IpToIntSafe;
    ParsedAddressChars(address);
  }

  // ---------------------------------------------------------------- every step keeps the table

  /** A key the generator just made: not empty and on no row. */
  predicate FreshKey(t: Table, key: string) {
    key != "" && forall i :: 0 <= i < |t.rows| ==> t.rows[i].publicKey != Some(key)
  }

  lemma AddKeeps(t: Table, serverId: nat, range: Option<string>, input: CreateInput, keys: KeyPair)
    requires TableOk(t) && FreshKey(t, keys.publicKey)
    ensures AddDevice(t, serverId, range, input, keys) != Err(Database(UniqueViolation))
    ensures AddDevice(t, serverId, range, input, keys) != Err(AddressConflict)
    ensures AddDevice(t, serverId, range, input, keys).Ok? ==> TableOk(AddDevice(t, serverId, range, input, keys).value)
  {
    hide ChosenAddress, UsedCidrs, UsedAddresses, AddressText, IpToIntSafe, ParseCidr, CoveredBy;
    if range.Some? && !BadMac(input.macAddress) {
      if input.kind == Host {
        InsertKeeps(t, NewRow(serverId, input, None, None));
      } else {
        var chosen := ChosenAddress(range.value, input.tunnelAddress, UsedCidrs(t.rows, serverId));
        ChosenErrors(range.value, input.tunnelAddress, UsedCidrs(t.rows, serverId));
        if chosen.Ok? {
          AddedAddressIsNew(t, serverId, range.value, input.tunnelAddress);
          InsertKeeps(t, NewRow(serverId, input, Some(chosen.value), Some(keys)));
        }
      }
    }
  }

  lemma ChosenErrors(range: string, wanted: Option<string>, used: seq<string>)
    ensures ChosenAddress(range, wanted, used).Err? ==> !ChosenAddress(range, wanted, used).error.Database?
    ensures ChosenAddress(range, wanted, used) != Err(AddressConflict)
  {
    hide Validate, Allocated;
  }

  /** The text names one host, bare or with the full mask. */
  predicate OneHost(address: string) {
    IpToIntSafe(HostPart(address)).Some? &&
    (|Split(Trim(address), '/')| > 1 ==> Split(Trim(address), '/')[1] == "32")
  }

  /** The wanted address, or, when none is wanted, any, can be given to a new peer of the server. */
  ghost predicate AddressToBeHad(rows: seq<DeviceRow>, serverId: nat, range: string, wanted: Option<string>) {
    if Truthy(wanted) then
      OneHost(wanted.value) && Vacant(rows, serverId, range, IpToIntSafe(HostPart(wanted.value)).value)
    else exists n: nat :: Vacant(rows, serverId, range, n)
  }

  lemma AddressChosenExactly(t: Table, serverId: nat, range: string, wanted: Option<string>)
    requires TableOk(t)
    ensures ChosenAddress(range, wanted, UsedCidrs(t.rows, serverId)).Ok? <==>
            AddressToBeHad(t.rows, serverId, range, wanted)
  {
    hide Validate, Allocated, UsedCidrs, IpToIntSafe, TableOk, Vacant, Assignable, ParseCidr, Split, Trim, HostPart;
    var used := UsedCidrs(t.rows, serverId);
    VacantIsAssignable(t, serverId, range);
    if Truthy(wanted) {
      ValidateExact(range, wanted.value, used);
    } else {
      AllocatedSomething(range, used);
    }
  }

  /** `add` succeeds exactly when the MAC is well formed, what is referred to exists, and the address is to be had. */
  lemma AddSucceedsExactly(t: Table, serverId: nat, range: string, input: CreateInput, keys: KeyPair)
    requires TableOk(t) && FreshKey(t, keys.publicKey)
    ensures AddDevice(t, serverId, Some(range), input, keys).Ok? <==>
            && !BadMac(input.macAddress)
            && SegmentKnown(input.segmentId, t.refs) && TargetKnown(input.sshTargetId, t.refs.targets)
            && (input.kind == Peer ==> AddressToBeHad(t.rows, serverId, range, input.tunnelAddress))
  {
    hide ChosenAddress, UsedCidrs, UsedAddresses, AddressText, AddressToBeHad, TableOk;
    AddKeeps(t, serverId, Some(range), input, keys);
    AddressChosenExactly(t, serverId, range, input.tunnelAddress);
  }

  /** What a failing `add` reports: each error exactly, in the order of its checks. */
  lemma AddFailsExactly(t: Table, serverId: nat, range: Option<string>, input: CreateInput, keys: KeyPair)
    requires TableOk(t) && FreshKey(t, keys.publicKey)
    ensures var r := AddDevice(t, serverId, range, input, keys);
            && (r == Err(NotFound) <==> range.None?)
            && (range.Some? && BadMac(input.macAddress) ==> r == Err(Validation))
            && (range.Some? && !BadMac(input.macAddress) ==>
                  if input.kind == Peer && !AddressToBeHad(t.rows, serverId, range.value, input.tunnelAddress) then
                    r == Err(AddressError(t.rows, serverId, range.value, input.tunnelAddress))
                  else r.Err? ==> r == Err(Database(ForeignKeyViolation)))
  {
    hide ChosenAddress, UsedCidrs, UsedAddresses, AddressText, AddressToBeHad, TableOk, OneHost, Inner, ParseCidr,
         IpToIntSafe, HostPart;
    AddKeeps(t, serverId, range, input, keys);
    if range.Some? {
      AddressChosenExactly(t, serverId, range.value, input.tunnelAddress);
      ChosenErrors(range.value, input.tunnelAddress, UsedCidrs(t.rows, serverId));
      if !AddressToBeHad(t.rows, serverId, range.value, input.tunnelAddress) {
        AddressErrorExactly(t, serverId, range.value, input.tunnelAddress);
      }
    }
  }

  /** Why no address is to be had. */
  function AddressError(rows: seq<DeviceRow>, serverId: nat, range: string, wanted: Option<string>): ServiceError {
    if !Truthy(wanted) then AddressExhausted
    else if !OneHost(wanted.value) then Validation
    else if ParseCidr(range).Err? then Internal
    else if Inner(IpToIntSafe(HostPart(wanted.value)).value, ParseCidr(range).value) then AddressInUse
    else Validation
  }

  lemma AddressErrorExactly(t: Table, serverId: nat, range: string, wanted: Option<string>)
    requires TableOk(t) && !AddressToBeHad(t.rows, serverId, range, wanted)
    ensures ChosenAddress(range, wanted, UsedCidrs(t.rows, serverId)) ==
            Err(AddressError(t.rows, serverId, range, wanted))
  {
    hide Validate, Allocated, UsedCidrs, IpToIntSafe, TableOk, InBlock, CoveredBy, HeldByNobody, ParseCidr, Split,
         Trim, HostPart;
    AddressChosenExactly(t, serverId, range, wanted);
    if Truthy(wanted) {
      ValidateReasons(range, wanted.value, UsedCidrs(t.rows, serverId));
      if OneHost(wanted.value) {
        InUseExactly(t, serverId, IpToIntSafe(HostPart(wanted.value)).value);
      }
    }
  }

  /** The row a successful `add` of a peer leaves behind. */
  lemma AddedPeer(t: Table, serverId: nat, range: string, input: CreateInput, keys: KeyPair)
    requires TableOk(t) && input.kind == Peer
    requires AddDevice(t, serverId, Some(range), input, keys).Ok?
    ensures var after := AddDevice(t, serverId, Some(range), input, keys).value;
            && |after.rows| == |t.rows| + 1 && t.rows <= after.rows
            && after == t.(rows := after.rows, nextId := t.nextId + 1)
            && var row := after.rows[|t.rows|];
            && CreatedFrom(row, t.nextId, serverId, input)
            && row.publicKey == Some(keys.publicKey) && row.privateKey == Some(keys.privateKey)
            && row.tunnelAddress.Some?
            && (Truthy(input.tunnelAddress) ==> row.tunnelAddress.value == Before(input.tunnelAddress.value, '/'))
            && exists n: nat :: && IpToIntSafe(row.tunnelAddress.value) == Some(n)
                                && Vacant(t.rows, serverId, range, n) && NumberFree(t.rows, serverId, n)
                                && (!Truthy(input.tunnelAddress) ==>
                                      forall m: nat :: Vacant(t.rows, serverId, range, m) ==> n <= m)
  {
    hide ChosenAddress, UsedCidrs, UsedAddresses, AddressText, IpToIntSafe, Vacant, TableOk;
    AddedAddressIsNew(t, serverId, range, input.tunnelAddress);
  }

  /** What a new row has of the input, whatever its kind. */
  predicate CreatedFrom(row: DeviceRow, id: nat, serverId: nat, input: CreateInput) {
    && row.id == id && row.serverId == serverId && row.name == input.name && row.kind == input.kind
    && row.segmentId == input.segmentId && row.macAddress == input.macAddress && row.sshTargetId == input.sshTargetId
    && row.origin == Created && row.management == Managed && row.allowedIps == None
  }

  /** A host gets neither keys nor an address. */
  lemma AddedHost(t: Table, serverId: nat, range: string, input: CreateInput, keys: KeyPair)
    requires input.kind == Host && AddDevice(t, serverId, Some(range), input, keys).Ok?
    ensures var after := AddDevice(t, serverId, Some(range), input, keys).value;
            && |after.rows| == |t.rows| + 1 && t.rows <= after.rows
            && after == t.(rows := after.rows, nextId := t.nextId + 1)
            && var row := after.rows[|t.rows|];
            && CreatedFrom(row, t.nextId, serverId, input)
            && row.publicKey == None && row.privateKey == None && row.tunnelAddress == None
  {
    hide Clashes;
  }

  /** What no edit touches, and what only its own kind of edit does. */
  predicate EditedFrom(after: DeviceRow, before: DeviceRow, id: nat, change: Change) {
    && (before.id != id ==> after == before)
    && after.id == before.id && after.serverId == before.serverId && after.kind == before.kind
    && after.origin == before.origin
    && after.tunnelAddress == before.tunnelAddress && after.allowedIps == before.allowedIps
    && (!change.Rekey? ==> after.publicKey == before.publicKey && after.privateKey == before.privateKey)
    && (!change.Adopt? ==> after.management == before.management)
  }

  /** An edit touches one row, in its own columns, and keeps the table. */
  lemma EditKeeps(t: Table, id: nat, change: Change)
    requires TableOk(t)
    requires change.Rekey? ==> FreshKey(t, change.publicKey)
    requires change.Rekey? && Find(t.rows, id).Some? ==> t.rows[Find(t.rows, id).value].kind == Peer
    ensures Edit(t, id, change).Ok? ==>
              var after := Edit(t, id, change).value;
              && TableOk(after) && |after.rows| == |t.rows| && after == t.(rows := after.rows)
              && forall i :: 0 <= i < |t.rows| ==> EditedFrom(after.rows[i], t.rows[i], id, change)
    ensures !change.Patch? ==> Edit(t, id, change).Ok?
  {
    hide AddressText;
  }

  /** Removing takes exactly the row with that id. */
  lemma RemoveKeeps(t: Table, id: nat)
    requires TableOk(t)
    ensures TableOk(t.(rows := Removed(t.rows, id)))
    ensures forall row :: row in Removed(t.rows, id) <==> row in t.rows && row.id != id
    ensures RemoveDevice(t, id).Ok? ==>
              var after := RemoveDevice(t, id).value;
              && TableOk(after) && after == t.(rows := after.rows)
              && forall row :: row in after.rows <==> row in t.rows && row.id != id
  {
    hide TableOk, Find;
    RemovedExactly(t, id);
    match Find(t.rows, id)
    case None => assert t.(rows := t.rows) == t;
    case Some(i) => CutKeeps(t, i);
  }

  lemma CutKeeps(t: Table, i: nat)
    requires TableOk(t) && i < |t.rows|
    ensures TableOk(t.(rows := t.rows[..i] + t.rows[i + 1..]))
  {
    hide RowOk, RefsKnown, Apart;
    var kept := t.rows[..i] + t.rows[i + 1..];
    assert forall k :: 0 <= k < |kept| ==> kept[k] == t.rows[if k < i then k else k + 1];
  }

  lemma RemovedExactly(t: Table, id: nat)
    requires TableOk(t)
    ensures forall row :: row in Removed(t.rows, id) <==> row in t.rows && row.id != id
  {
    hide RowOk, RefsKnown;
    match Find(t.rows, id)
    case None =>
    case Some(i) => assert t.rows == t.rows[..i] + [t.rows[i]] + t.rows[i + 1..];
  }

  /** On a table that meets its invariant the conflict check of `adopt` never fires. */
  lemma AdoptNeverConflicts(t: Table, id: nat, name: string, segmentId: Option<Option<string>>)
    requires TableOk(t)
    ensures AdoptDevice(t, id, name, segmentId).error != Some(AddressConflict)
    ensures AdoptDevice(t, id, name, segmentId).error != Some(Database(UniqueViolation))
    ensures TableOk(AdoptDevice(t, id, name, segmentId).table)
  {
    hide AddressText;
    if Find(t.rows, id).Some? {
      var i := Find(t.rows, id).value;
      forall j | 0 <= j < |t.rows| && t.rows[j].id != id && Truthy(t.rows[i].tunnelAddress)
        ensures !HasAddress(t.rows[j], t.rows[i].serverId, t.rows[i].tunnelAddress.value)
      {
        assert Apart(t.rows[i], t.rows[j]) || Apart(t.rows[j], t.rows[i]);
      }
      EditKeeps(t, id, Change.Adopt(name));
      var adopted := t.(rows := Edited(t.rows, id, Change.Adopt(name)));
      if segmentId.Some? {
        EditKeeps(adopted, id, Patch(name, segmentId.value, t.rows[i].macAddress, t.rows[i].sshTargetId));
      }
    }
  }

  // ---------------------------------------------------------------- runs

  datatype Op =
    | Add(serverId: nat, range: Option<string>, input: CreateInput, keys: KeyPair)
    | Import(serverId: nat, peers: seq<PeerStatus>)
    | AdoptOp(id: nat, name: string, segmentId: Option<Option<string>>)
    | Update(id: nat, patch: UpdateInput)
    | Rotate(id: nat, keys: KeyPair)
    | Remove(id: nat)
    | DropServer(serverId: nat)
    | Refer(kept: Refs)

  /** A single write: an error leaves the table as it was. */
  function Written(t: Table, r: Result<Table, ServiceError>): Effect {
    match r
    case Ok(t') => Effect(t', None)
    case Err(e) => Effect(t, Some(e))
  }

  function Outcome(t: Table, op: Op): Effect {
    match op
    case Add(serverId, range, input, keys) => Written(t, AddDevice(t, serverId, range, input, keys))
    case Import(serverId, peers) =>
      (match ImportAll(t, serverId, peers)
       case Ok(done) => Effect(done.table, None)
       case Err(e) => Effect(t, Some(Database(e))))
    case AdoptOp(id, name, segmentId) => AdoptDevice(t, id, name, segmentId)
    case Update(id, patch) => Written(t, UpdateDevice(t, id, patch))
    case Rotate(id, keys) => Written(t, RotateDevice(t, id, keys))
    case Remove(id) => Written(t, RemoveDevice(t, id))
    case DropServer(serverId) => Effect(ServerDropped(t, serverId), None)
    case Refer(kept) => Effect(Referring(t, kept), None)
  }

  function Step(t: Table, op: Op): Table {
    Outcome(t, op).table
  }

  function Run(t: Table, ops: seq<Op>): Table {
    if ops == [] then t else Step(Run(t, ops[..|ops| - 1]), ops[|ops| - 1])
  }

  /** Generated keys are fresh; nothing else is asked of an operation. */
  predicate Generated(t: Table, op: Op) {
    match op
    case Add(_, _, _, keys) => FreshKey(t, keys.publicKey)
    case Rotate(_, keys) => FreshKey(t, keys.publicKey)
    case _ => true
  }

  ghost predicate GeneratedRun(t: Table, ops: seq<Op>) {
    forall k :: 0 <= k < |ops| ==> Generated(Run(t, ops[..k]), ops[k])
  }

  /** Neither the unique index nor the conflict check of `adopt` refused the call. */
  predicate NoConflict(e: Effect) {
    e.error != Some(Database(UniqueViolation)) && e.error != Some(AddressConflict)
  }

  lemma StepKeeps(t: Table, op: Op)
    requires TableOk(t) && Generated(t, op)
    ensures TableOk(Step(t, op)) && NoConflict(Outcome(t, op))
  {
    hide AddDevice, ImportAll, AdoptDevice, ServerDropped, Referring, TableOk;
    match op {
      case Add(serverId, range, input, keys) =>
        AddKeeps(t, serverId, range, input, keys);
      case Import(serverId, peers) => ImportExact(t, serverId, peers);
      case AdoptOp(id, name, segmentId) =>
        AdoptNeverConflicts(t, id, name, segmentId);
      case Update(id, patch) =>
        if Find(t.rows, id).Some? {
          EditKeeps(t, id, PatchFor(t.rows[Find(t.rows, id).value], patch));
        }
      case Rotate(id, keys) =>
        if RotateDevice(t, id, keys).Ok? {
          EditKeeps(t, id, Rekey(keys.publicKey, keys.privateKey));
        }
      case Remove(id) => RemoveKeeps(t, id);
      case DropServer(serverId) => ServerDroppedExact(t, serverId);
      case Refer(kept) => ReferringKeepsOk(t, kept);
    }
  }

  /** A patched field takes the value given, and keeps its own when none is. */
  predicate Patched<T(==)>(wanted: Option<T>, before: T, after: T) {
    after == if wanted.Some? then wanted.value else before
  }

  /**
   `update` succeeds exactly when the device exists, a new MAC is well formed,
   and a new segment and SSH target exist; it sets the fields given, no others.
   */
  lemma UpdateExact(t: Table, id: nat, patch: UpdateInput)
    requires TableOk(t)
    ensures UpdateDevice(t, id, patch).Ok? <==>
            && Find(t.rows, id).Some?
            && (patch.macAddress.Some? ==> !BadMac(patch.macAddress.value))
            && (patch.segmentId.Some? ==> SegmentKnown(patch.segmentId.value, t.refs))
            && (patch.sshTargetId.Some? ==> TargetKnown(patch.sshTargetId.value, t.refs.targets))
    ensures UpdateDevice(t, id, patch).Ok? ==>
              var i := Find(t.rows, id).value;
              var before, after := t.rows[i], UpdateDevice(t, id, patch).value.rows[i];
              && UpdateDevice(t, id, patch).value == t.(rows := t.rows[i := after])
              && Patched(patch.name, before.name, after.name)
              && Patched(patch.segmentId, before.segmentId, after.segmentId)
              && Patched(patch.macAddress, before.macAddress, after.macAddress)
              && Patched(patch.sshTargetId, before.sshTargetId, after.sshTargetId)
              && after.publicKey == before.publicKey && after.privateKey == before.privateKey
              && after.tunnelAddress == before.tunnelAddress && after.allowedIps == before.allowedIps
              && after.management == before.management && after.origin == before.origin
  {
    hide IsMac, RowOk, Apart;
    if Find(t.rows, id).Some? {
      assert RefsKnown(t.rows[Find(t.rows, id).value], t.refs);
    }
  }

  /** Laying a second patch over a first: what the second gives wins. */
  function Overlaid(first: UpdateInput, second: UpdateInput): UpdateInput {
    UpdateInput(if second.name.Some? then second.name else first.name,
                if second.segmentId.Some? then second.segmentId else first.segmentId,
                if second.macAddress.Some? then second.macAddress else first.macAddress,
                if second.sshTargetId.Some? then second.sshTargetId else first.sshTargetId)
  }

  /** Two updates in a row are one: the second patch laid over the first. */
  lemma UpdatesCompose(t: Table, id: nat, first: UpdateInput, second: UpdateInput)
    requires TableOk(t) && UpdateDevice(t, id, first).Ok? && UpdateDevice(t, id, second).Ok?
    ensures UpdateDevice(UpdateDevice(t, id, first).value, id, second) == UpdateDevice(t, id, Overlaid(first, second))
  {
    hide IsMac, TableOk;
    var i := Find(t.rows, id).value;
    var row := Changed(t.rows[i], PatchFor(t.rows[i], first));
    var last := Changed(row, PatchFor(row, second));
    FindSame(t.rows, id, i, row);
    assert last == Changed(t.rows[i], PatchFor(t.rows[i], Overlaid(first, second)));
    assert t.rows[i := row][i := last] == t.rows[i := last];
  }

  /** The row `adopt` turns a row into, before the segment is written. */
  function AdoptedRow(row: DeviceRow, name: string): DeviceRow {
    row.(name := name, management := Managed)
  }

  /**
   `adopt` succeeds exactly when the device waits for review and a segment given
   exists: it becomes managed and keeps its address and keys.
   */
  lemma AdoptExact(t: Table, id: nat, name: string, segmentId: Option<Option<string>>)
    requires TableOk(t)
    ensures var e := AdoptDevice(t, id, name, segmentId);
            && (e.error.None? <==>
                  && Find(t.rows, id).Some? && t.rows[Find(t.rows, id).value].management == NeedsReview
                  && (segmentId.Some? ==> SegmentKnown(segmentId.value, t.refs)))
            && (e.error.None? ==>
                  var i := Find(t.rows, id).value;
                  var row := AdoptedRow(t.rows[i], name).(segmentId := e.table.rows[i].segmentId);
                  e.table == t.(rows := t.rows[i := row])
                  && e.table.rows[i].segmentId == if segmentId.Some? then segmentId.value else t.rows[i].segmentId)
  {
    hide RowOk, Apart, ManagedConflict;
    AdoptNeverConflicts(t, id, name, segmentId);
    if Find(t.rows, id).Some? {
      var i := Find(t.rows, id).value;
      FindSame(t.rows, id, i, Changed(t.rows[i], Change.Adopt(name)));
      assert RefsKnown(t.rows[i], t.refs);
    }
  }

  /**
   Where the code is not atomic: `adopt` reports an error on a table it changed
   exactly when the device waits for review and the segment given does not exist.
   The device is then managed under the new name, in its old segment.
   */
  lemma HalfAdoptedExactly(t: Table, id: nat, name: string, segmentId: Option<Option<string>>)
    requires TableOk(t)
    ensures var e := AdoptDevice(t, id, name, segmentId);
            && (e.error.Some? && e.table != t <==>
                  && Find(t.rows, id).Some? && t.rows[Find(t.rows, id).value].management == NeedsReview
                  && segmentId.Some? && !SegmentKnown(segmentId.value, t.refs))
            && (e.error.Some? && e.table != t ==>
                  var i := Find(t.rows, id).value;
                  var adopted := t.(rows := t.rows[i := AdoptedRow(t.rows[i], name)]);
                  e == Effect(adopted, Some(Database(ForeignKeyViolation))))
  {
    hide RowOk, Apart, ManagedConflict;
    AdoptNeverConflicts(t, id, name, segmentId);
    if Find(t.rows, id).Some? {
      var i := Find(t.rows, id).value;
      FindSame(t.rows, id, i, Changed(t.rows[i], Change.Adopt(name)));
      assert RefsKnown(t.rows[i], t.refs);
      assert t.rows[i := AdoptedRow(t.rows[i], name)][i] == AdoptedRow(t.rows[i], name);
    }
  }

  lemma FindSame(rows: seq<DeviceRow>, id: nat, i: nat, row: DeviceRow)
    requires i < |rows| && row.id == rows[i].id
    ensures Find(rows[i := row], id) == Find(rows, id)
  {
    Lookup.FindBySame(rows, id, DeviceId, i, row);
  }

  /** What the calls on one device report: an unknown id, a device in the wrong state, or an unknown reference. */
  lemma FailuresExactly(t: Table, id: nat, name: string, segmentId: Option<Option<string>>, patch: UpdateInput,
      keys: KeyPair)
    requires TableOk(t)
    ensures var unknown := forall row :: row in t.rows ==> row.id != id;
            var adopted, updated := AdoptDevice(t, id, name, segmentId).error, UpdateDevice(t, id, patch);
            var rotated, removed := RotateDevice(t, id, keys), RemoveDevice(t, id);
            && (adopted == Some(NotFound) <==> unknown)
            && (updated == Err(NotFound) <==> unknown)
            && (rotated == Err(NotFound) <==> unknown)
            && (removed == Err(NotFound) <==> unknown) && (removed.Ok? <==> !unknown)
            && (forall row :: row in t.rows && row.id == id ==>
                  && (adopted == Some(Validation) <==> row.management != NeedsReview)
                  && (updated == Err(Validation) <==> patch.macAddress.Some? && BadMac(patch.macAddress.value))
                  && (rotated == Err(Validation) <==> row.kind != Peer))
            && adopted in {None, Some(NotFound), Some(Validation), Some(Database(ForeignKeyViolation))}
            && (updated.Err? ==> updated.error in {NotFound, Validation, Database(ForeignKeyViolation)})
            && (rotated.Err? ==> rotated.error in {NotFound, Validation})
  {
    hide RowOk, ManagedConflict, IsMac, RefsKnown;
    AdoptNeverConflicts(t, id, name, segmentId);
    match Find(t.rows, id)
    case None =>
    case Some(i) =>
      assert t.rows[i] in t.rows;
      forall row | row in t.rows && row.id == id
        ensures row == t.rows[i]
      {
        var j :| 0 <= j < |t.rows| && t.rows[j] == row;
        assert i != j ==> Apart(t.rows[if i < j then i else j], t.rows[if i < j then j else i]);
      }
  }

  /** Rotating replaces a peer's keys: the old key is tracked no more, the new one is, nothing else changes. */
  lemma RotateExact(t: Table, id: nat, keys: KeyPair)
    requires TableOk(t) && FreshKey(t, keys.publicKey)
    ensures RotateDevice(t, id, keys).Ok? <==> Find(t.rows, id).Some? && t.rows[Find(t.rows, id).value].kind == Peer
    ensures RotateDevice(t, id, keys).Ok? ==>
              var i := Find(t.rows, id).value;
              var before, after := t.rows[i], RotateDevice(t, id, keys).value.rows;
              && |after| == |t.rows|
              && Tracks(after, before.serverId, keys.publicKey)
              && after[i].privateKey == Some(keys.privateKey)
              && (before.publicKey.Some? ==> !Tracks(after, before.serverId, before.publicKey.value))
              && forall j :: 0 <= j < |after| ==>
                   if j == i then after[j].tunnelAddress == before.tunnelAddress && after[j].name == before.name
                   else after[j] == t.rows[j]
  {
    hide RowOk;
    if RotateDevice(t, id, keys).Ok? {
      var i := Find(t.rows, id).value;
      var before, after := t.rows[i], RotateDevice(t, id, keys).value.rows;
      assert HasKey(after[i], before.serverId, keys.publicKey);
      forall j | 0 <= j < |after| && before.publicKey.Some?
        ensures !HasKey(after[j], before.serverId, before.publicKey.value)
      {
        if j != i {
          assert Apart(t.rows[i], t.rows[j]) || Apart(t.rows[j], t.rows[i]);
        }
      }
    }
  }

  /**
   Over any run from an empty table: addresses stay pairwise distinct per server,
   only peers carry them, and no step is ever refused by the unique index or by
   the conflict check of `adopt`.
   */
  lemma {:induction false} RunKeeps(ops: seq<Op>)
    requires GeneratedRun(EMPTY, ops)
    ensures TableOk(Run(EMPTY, ops))
    ensures forall k :: 0 <= k < |ops| ==> NoConflict(Outcome(Run(EMPTY, ops[..k]), ops[k]))
    decreases |ops|
  {
    hide TableOk, Step, Outcome, Generated, NoConflict;
    if ops == [] {
      EmptyTable();
    } else {
      var init := ops[..|ops| - 1];
      assert forall k :: 0 <= k < |init| ==> init[..k] == ops[..k] && init[k] == ops[k];
      assert GeneratedRun(EMPTY, init);
      RunKeeps(init);
      StepKeeps(Run(EMPTY, init), ops[|ops| - 1]);
    }
  }

  lemma EmptyTable()
    ensures TableOk(EMPTY)
  {
  }

  // ---------------------------------------------------------------- import and numbers

  /** The text `add` stores is the canonical one exactly when the operator typed no white space in front of a `/`. */
  lemma StoredCanonicalExactly(range: string, wanted: Option<string>, used: seq<string>)
    requires ChosenAddress(range, wanted, used).Ok?
    ensures var stored := ChosenAddress(range, wanted, used).value;
            && IpToIntSafe(stored).Some?
            && (stored == IntToIp(IpToIntSafe(stored).value) <==> NoSpace(stored))
            && (Truthy(wanted) ==> stored == Before(wanted.value, '/'))
            && (!Truthy(wanted) ==> NoSpace(stored))
  {
    hide Validate, Allocated, IpToIntSafe, ParseCidr, IntToIp, Assignable, Before, NoSpace;
    ChosenIsAssignable(range, wanted, used);
    var stored := ChosenAddress(range, wanted, used).value;
    CanonicalExactly(stored, IpToIntSafe(stored).value);
    if !Truthy(wanted) {
      AllocatedIsCanonical(range, used);
    }
  }

  lemma AllocatedIsCanonical(range: string, used: seq<string>)
    requires Allocated(range, used).Ok?
    ensures NoSpace(Allocated(range, used).value)
  {
    hide ParseCidr, IntToIp, UsedRanges, IsSpace;
    var c := ParseCidr(range).value;
    var block := CidrRange(c);
    IntToIpShape(FirstFree(block.first + 2, block.last, (c.base + 1) % Bits.TWO32, UsedRanges(used)).value);
    DigitsAreNoSpace();
  }

  /** A host text that parses is the canonical one. */
  lemma HostTextCanonical(ip: string, n: nat)
    requires HostText(ip) && IpToIntSafe(ip) == Some(n)
    ensures ip == IntToIp(n)
  {
    hide IpToIntSafe, IntToIp, IsSpace;
    HostTextSpaceless(ip);
    CanonicalExactly(ip, n);
  }

  /**
   Import compares texts, so it can store a number twice: it does exactly when
   the host is stored under some text with white space in it, and not under its own.
   */
  lemma ImportDuplicatesNumber(t: Table, serverId: nat, p: PeerStatus, ip: string, n: nat)
    requires TableOk(t) && !Skipped(t.rows, serverId, p)
    requires !BlankIps(p.allowedIps) && SingleHost(p.allowedIps) == Some(ip) && IpToIntSafe(ip) == Some(n)
    ensures ImportOne(PeerImport.Import(t, 0), serverId, p).Ok?
    ensures var row := ImportOne(PeerImport.Import(t, 0), serverId, p).value.table.rows[|t.rows|];
            row.tunnelAddress.Some? && !NumberFree(t.rows, serverId, n) <==>
            ip !in UsedAddresses(t.rows, serverId) &&
            exists i :: 0 <= i < |t.rows| && t.rows[i].serverId == serverId && t.rows[i].tunnelAddress.Some?
                        && IpToIntSafe(t.rows[i].tunnelAddress.value) == Some(n)
                        && !NoSpace(t.rows[i].tunnelAddress.value)
  {
    hide TableOk, SingleHost, Trim, IpToIntSafe, IntToIp, BlankIps, UsedAddresses, NoSpace;
    ImportOneKeeps(PeerImport.Import(t, 0), serverId, p);
    SingleHostIsHostText(p.allowedIps);
    HostTextCanonical(ip, n);
    if !NumberFree(t.rows, serverId, n) && ip !in UsedAddresses(t.rows, serverId) {
      var i :| 0 <= i < |t.rows| && t.rows[i].serverId == serverId && t.rows[i].tunnelAddress.Some?
               && IpToIntSafe(t.rows[i].tunnelAddress.value) == Some(n);
      UsedAddressesExact(t.rows, serverId, ip);
      assert !HasAddress(t.rows[i], serverId, ip);
      CanonicalExactly(t.rows[i].tunnelAddress.value, n);
    }
  }

  lemma SingleHostIsHostText(allowedIps: string)
    requires SingleHost(allowedIps).Some?
    ensures HostText(SingleHost(allowedIps).value)
  {
  }

  // ---------------------------------------------------------------- the service

  class DeviceService {
    const devices: DeviceRepo

    constructor (devices: DeviceRepo)
      ensures this.devices == devices
    {
      this.devices := devices;
    }

    /** `range` is the address range of the server that `serverId` names, None when it names none. */
    method Add(serverId: nat, range: Option<string>, input: CreateInput, keys: KeyPair)
      returns (r: Result<nat, ServiceError>)
      modifies devices
      ensures match AddDevice(old(devices.State()), serverId, range, input, keys)
              case Ok(t) => devices.State() == t && r == Ok(old(devices.nextId))
              case Err(e) => devices.State() == old(devices.State()) && r == Err(e)
    {
      hide Validate, Allocated, UsedCidrs;
      if range.None? {
        return Err(NotFound);
      }
      if BadMac(input.macAddress) {
        return Err(Validation);
      }
      var tunnelAddress: Option<string> := None;
      var peerKeys: Option<KeyPair> := None;
      if input.kind == Peer {
        var used := devices.UsedCidrList(serverId);
        if Truthy(input.tunnelAddress) {
          var check := Validate(range.value, input.tunnelAddress.value, used);
          match check {
            case Err(_) => return Err(Internal);
            case Ok(Rejected(InUse)) => return Err(AddressInUse);
            case Ok(Rejected(_)) => return Err(Validation);
            case Ok(Accepted) =>
          }
          tunnelAddress := Some(Before(input.tunnelAddress.value, '/'));
        } else {
          var next := AllocateAddress(range.value, used);
          if next.Err? {
            return Err(AddressExhausted);
          }
          tunnelAddress := Some(next.value);
        }
        peerKeys := Some(keys);
      }
      var created := devices.Create(NewRow(serverId, input, tunnelAddress, peerKeys));
      match created
      case Ok(id) => r := Ok(id);
      case Err(e) => r := Err(Database(e));
    }

    method Adopt(id: nat, name: string, segmentId: Option<Option<string>>) returns (r: Result<(), ServiceError>)
      modifies devices
      ensures var e := AdoptDevice(old(devices.State()), id, name, segmentId);
              devices.State() == e.table && r == if e.error.None? then Ok(()) else Err(e.error.value)
    {
      var found := devices.Get(id);
      if found.None? {
        return Err(NotFound);
      }
      var row := found.value;
      if row.management != NeedsReview {
        return Err(Validation);
      }
      if ManagedConflict(devices.rows, row) {
        return Err(AddressConflict);
      }
      var _ := devices.Update(id, Change.Adopt(name));
      if segmentId.Some? {
        var moved := devices.Update(id, Patch(name, segmentId.value, row.macAddress, row.sshTargetId));
        if moved.Err? {
          return Err(Database(moved.error));
        }
      }
      r := Ok(());
    }

    method Update(id: nat, patch: UpdateInput) returns (r: Result<(), ServiceError>)
      modifies devices
      ensures match UpdateDevice(old(devices.State()), id, patch)
              case Ok(t) => devices.State() == t && r == Ok(())
              case Err(e) => devices.State() == old(devices.State()) && r == Err(e)
    {
      var found := devices.Get(id);
      if found.None? {
        return Err(NotFound);
      }
      if patch.macAddress.Some? && BadMac(patch.macAddress.value) {
        return Err(Validation);
      }
      var written := devices.Update(id, PatchFor(found.value, patch));
      match written
      case Ok(_) => r := Ok(());
      case Err(e) => r := Err(Database(e));
    }

    method RotateKeys(id: nat, keys: KeyPair) returns (r: Result<(), ServiceError>)
      modifies devices
      ensures match RotateDevice(old(devices.State()), id, keys)
              case Ok(t) => devices.State() == t && r == Ok(())
              case Err(e) => devices.State() == old(devices.State()) && r == Err(e)
    {
      var found := devices.Get(id);
      if found.None? {
        return Err(NotFound);
      }
      if found.value.kind != Peer {
        return Err(Validation);
      }
      var _ := devices.Update(id, Rekey(keys.publicKey, keys.privateKey));
      r := Ok(());
    }

    method Remove(id: nat) returns (r: Result<(), ServiceError>)
      modifies devices
      ensures match RemoveDevice(old(devices.State()), id)
              case Ok(t) => devices.State() == t && r == Ok(())
              case Err(e) => devices.State() == old(devices.State()) && r == Err(e)
    {
      var found := devices.Get(id);
      if found.None? {
        return Err(NotFound);
      }
      var _ := devices.Delete(id);
      r := Ok(());
    }
  }
}
