/**
 Registering servers (backend/src/servers/service.ts:49-134): the checks of
 create, update and delete, and the disjointness of address ranges they keep.
 */
module Registry {
  import opened Wrappers
  import opened Sorting
  import opened Net
  import opened DeviceStore
  import opened ServerStore

  datatype RegistryError = NotFound | Validation | NameConflict | RangeConflict | Internal | Database

  datatype CreateServerInput = CreateServerInput(
    name: string,
    location: Location,
    addressRange: string,
    listenEndpoint: string,
    interfaceName: Option<string>,
    sshTargetId: Option<string>)

  /** The first error the loop over other servers runs into: an overlap, or a range that does not parse. */
  function FirstConflict(others: seq<ServerRow>, range: string): Option<RegistryError> {
    if others == [] then None
    else
      match CidrsOverlap(others[0].addressRange, range)
      case Err(_) => Some(Internal)
      case Ok(true) => Some(RangeConflict)
      case Ok(false) => FirstConflict(others[1..], range)
  }

  function NewServer(input: CreateServerInput, privateKey: string, publicKey: string): ServerRow {
    ServerRow(0, input.name, input.location, if input.interfaceName.Some? then input.interfaceName.value else "wg0",
              input.addressRange, input.listenEndpoint, privateKey, publicKey, input.sshTargetId, Unknown)
  }

  function CreateServer(s: Servers, input: CreateServerInput, targets: set<string>, privateKey: string,
      publicKey: string)
    : Result<Servers, RegistryError>
  {
    if ParseCidr(input.addressRange).Err? then Err(Validation)
    else if input.location == Remote && !Truthy(input.sshTargetId) then Err(Validation)
    else if Truthy(input.sshTargetId) && input.sshTargetId.value !in targets then Err(Validation)
    else if NameTaken(s.rows, input.name) then Err(NameConflict)
    else
      match FirstConflict(List(s.rows), input.addressRange)
      case Some(e) => Err(e)
      case None =>
        match InsertServer(s, NewServer(input, privateKey, publicKey), targets)
        case Ok(s') => Ok(s')
        case Err(_) => Err(Database)
  }

  /** The other servers, as the loop of `update` meets them. */
  function Others(rows: seq<ServerRow>, id: nat): seq<ServerRow> {
    if rows == [] then []
    else (if rows[0].id == id then [] else [rows[0]]) + Others(rows[1..], id)
  }

  /** The servers the loop compares with: all of them, or all but the one being updated. */
  function Scanned(rows: seq<ServerRow>, except: Option<nat>): seq<ServerRow> {
    match except
    case None => rows
    case Some(id) => Others(rows, id)
  }

  function UpdateServer(s: Servers, id: nat, patch: ServerPatch, targets: set<string>): Result<Servers, RegistryError> {
    match FindServer(s.rows, id)
    case None => Err(NotFound)
    case Some(i) =>
      var checked := Truthy(patch.addressRange) && patch.addressRange.value != s.rows[i].addressRange;
      match if checked then FirstConflict(Scanned(List(s.rows), Some(id)), patch.addressRange.value) else None
      case Some(e) => Err(e)
      case None =>
        match WriteServer(s, i, PatchedServer(s.rows[i], patch), targets)
        case Ok(s') => Ok(s')
        case Err(_) => Err(Database)
  }

  function DeleteServer(s: Servers, id: nat): Result<Servers, RegistryError> {
    if FindServer(s.rows, id).None? then Err(NotFound) else Ok(Servers(WithoutRow(s.rows, id), s.nextId))
  }

  // ---------------------------------------------------------------- the invariant

  /** Both ranges are well formed and no address lies in both. */
  ghost predicate Disjoint(a: string, b: string) {
    && ParseCidr(a).Ok? && ParseCidr(b).Ok?
    && !Shares(ParseCidr(a).value, ParseCidr(b).value)
  }

  /** Any two registered servers have their own id and name, and well-formed, disjoint ranges. */
  ghost predicate RegistryOk(s: Servers) {
    && (forall i :: 0 <= i < |s.rows| ==> s.rows[i].id < s.nextId)
    && (forall i, j :: 0 <= i < |s.rows| && 0 <= j < |s.rows| && i != j ==>
          && s.rows[i].id != s.rows[j].id
          && s.rows[i].name != s.rows[j].name
          && Disjoint(s.rows[i].addressRange, s.rows[j].addressRange))
  }

  lemma NoOverlapIsDisjoint(a: string, b: string)
    ensures CidrsOverlap(a, b) == Ok(false) <==> Disjoint(a, b)
    ensures Disjoint(a, b) <==> Disjoint(b, a)
  {
    hide ParseCidr;
    OverlapExact(a, b);
    OverlapExact(b, a);
    if ParseCidr(a).Ok? && ParseCidr(b).Ok? {
      assert Shares(ParseCidr(a).value, ParseCidr(b).value) <==> Shares(ParseCidr(b).value, ParseCidr(a).value);
    }
  }

  /** The loop passes exactly when the range is well formed against, and disjoint from, every other. */
  lemma {:induction false} FirstConflictExact(others: seq<ServerRow>, range: string)
    ensures FirstConflict(others, range).None? <==>
            forall row :: row in others ==> Disjoint(row.addressRange, range)
  {
    hide CidrsOverlap, Disjoint;
    if others != [] {
      FirstConflictExact(others[1..], range);
      NoOverlapIsDisjoint(others[0].addressRange, range);
      assert others == [others[0]] + others[1..];
    }
  }

  lemma {:induction false} OthersExact(rows: seq<ServerRow>, id: nat, row: ServerRow)
    ensures row in Others(rows, id) <==> row in rows && row.id != id
  {
    if rows != [] {
      OthersExact(rows[1..], id, row);
      assert rows == [rows[0]] + rows[1..];
    }
  }

  lemma ListedExact(rows: seq<ServerRow>, range: string)
    ensures FirstConflict(List(rows), range).None? <==>
            forall i :: 0 <= i < |rows| ==> Disjoint(rows[i].addressRange, range)
  {
    hide CidrsOverlap, Disjoint;
    FirstConflictExact(List(rows), range);
    ListedMembers(rows);
    assert forall i :: 0 <= i < |rows| ==> rows[i] in rows;
  }

  lemma OthersListedExact(rows: seq<ServerRow>, id: nat, range: string)
    ensures FirstConflict(Others(List(rows), id), range).None? <==>
            forall i :: 0 <= i < |rows| && rows[i].id != id ==> Disjoint(rows[i].addressRange, range)
  {
    hide CidrsOverlap, Disjoint;
    FirstConflictExact(Others(List(rows), id), range);
    forall row
      ensures row in Others(List(rows), id) <==> row in rows && row.id != id
    {
      OthersExact(List(rows), id, row);
      SortMember(rows, NameOf, row);
    }
    assert forall i :: 0 <= i < |rows| ==> rows[i] in rows;
  }

  lemma CreateKeeps(s: Servers, input: CreateServerInput, targets: set<string>, privateKey: string, publicKey: string)
    requires RegistryOk(s)
    ensures CreateServer(s, input, targets, privateKey, publicKey).Ok? ==>
              && RegistryOk(CreateServer(s, input, targets, privateKey, publicKey).value)
              && ParseCidr(input.addressRange).Ok?
  {
    hide ParseCidr, FirstConflict, Disjoint, List;
    ListedExact(s.rows, input.addressRange);
    forall i | 0 <= i < |s.rows|
      ensures Disjoint(s.rows[i].addressRange, input.addressRange) <==>
              Disjoint(input.addressRange, s.rows[i].addressRange)
    {
      NoOverlapIsDisjoint(s.rows[i].addressRange, input.addressRange);
    }
  }

  /** `create` accepts exactly the well-formed, known, new and disjoint. */
  lemma CreateSucceedsExactly(s: Servers, input: CreateServerInput, targets: set<string>, privateKey: string,
      publicKey: string)
    ensures CreateServer(s, input, targets, privateKey, publicKey).Ok? <==>
            && ParseCidr(input.addressRange).Ok?
            && (input.location == Remote ==> Truthy(input.sshTargetId))
            && TargetKnown(input.sshTargetId, targets)
            && !NameTaken(s.rows, input.name)
            && forall i :: 0 <= i < |s.rows| ==> Disjoint(s.rows[i].addressRange, input.addressRange)
  {
    hide ParseCidr, FirstConflict, Disjoint, List, NameTaken;
    ListedExact(s.rows, input.addressRange);
  }

  /** The one server a successful `create` appends. */
  lemma CreatedServer(s: Servers, input: CreateServerInput, targets: set<string>, privateKey: string, publicKey: string)
    requires CreateServer(s, input, targets, privateKey, publicKey).Ok?
    ensures var after := CreateServer(s, input, targets, privateKey, publicKey).value;
            && |after.rows| == |s.rows| + 1 && s.rows <= after.rows && after.nextId == s.nextId + 1
            && var row := after.rows[|s.rows|];
            && row.id == s.nextId && row.name == input.name && row.location == input.location
            && row.addressRange == input.addressRange && row.listenEndpoint == input.listenEndpoint
            && row.sshTargetId == input.sshTargetId && row.status == Unknown
            && row.privateKey == privateKey && row.publicKey == publicKey
            && (input.interfaceName.Some? ==> row.interfaceName == input.interfaceName.value)
            && (input.interfaceName.None? ==> row.interfaceName == "wg0")
  {
    hide ParseCidr, FirstConflict, List, NameTaken;
  }

  /** The input of `create` is complete and what it refers to is known. */
  predicate InputOk(input: CreateServerInput, targets: set<string>) {
    && ParseCidr(input.addressRange).Ok?
    && (input.location == Remote ==> Truthy(input.sshTargetId))
    && (Truthy(input.sshTargetId) ==> input.sshTargetId.value in targets)
  }

  /** What a failing `create` reports: each error exactly, in the order of its checks. */
  lemma CreateFailsExactly(s: Servers, input: CreateServerInput, targets: set<string>, privateKey: string,
      publicKey: string)
    requires RegistryOk(s)
    ensures var r := CreateServer(s, input, targets, privateKey, publicKey);
            var checked := InputOk(input, targets) && !NameTaken(s.rows, input.name);
            var allParse := forall i :: 0 <= i < |s.rows| ==> ParseCidr(s.rows[i].addressRange).Ok?;
            && (r == Err(Validation) <==> !InputOk(input, targets))
            && (r == Err(NameConflict) <==> InputOk(input, targets) && NameTaken(s.rows, input.name))
            && (r == Err(RegistryError.Internal) <==> checked && !allParse)
            && (checked && allParse ==>
                  (r == Err(RangeConflict) <==>
                     exists i :: 0 <= i < |s.rows| && !Disjoint(s.rows[i].addressRange, input.addressRange)))
  {
    hide ParseCidr, FirstConflict, Disjoint, List, NameTaken;
    ListedExact(s.rows, input.addressRange);
    ConflictKind(List(s.rows), input.addressRange);
    ListedMembers(s.rows);
    if i :| 0 <= i < |s.rows| && ParseCidr(s.rows[i].addressRange).Err? {
      MalformedIsAlone(s, i);
      assert s.rows[i] in List(s.rows);
      assert NameOf(s.rows[i]) == s.rows[i].name;
      LoneConflict(s.rows[i], input.addressRange);
    }
    if i :| 0 <= i < |s.rows| && !Disjoint(s.rows[i].addressRange, input.addressRange) {
      assert s.rows[i] in s.rows;
    }
  }

  lemma ListedMembers(rows: seq<ServerRow>)
    ensures forall row :: row in List(rows) <==> row in rows
  {
    forall row
      ensures row in List(rows) <==> row in rows
    {
      SortMember(rows, NameOf, row);
    }
  }

  lemma {:induction false} ConflictKind(others: seq<ServerRow>, range: string)
    ensures FirstConflict(others, range) in {None, Some(RangeConflict), Some(RegistryError.Internal)}
    ensures ParseCidr(range).Ok? && (forall row :: row in others ==> ParseCidr(row.addressRange).Ok?) ==>
              FirstConflict(others, range) != Some(RegistryError.Internal)
  {
    hide ParseCidr;
    if others != [] {
      ConflictKind(others[1..], range);
      assert others == [others[0]] + others[1..];
    }
  }

  lemma MalformedIsAlone(s: Servers, i: nat)
    requires RegistryOk(s) && i < |s.rows| && ParseCidr(s.rows[i].addressRange).Err?
    ensures s.rows == [s.rows[i]]
  {
    hide ParseCidr;
    hide RegistryOk;
    if |s.rows| >= 2 {
      AmongOthersParses(s, i);
    }
  }

  lemma AmongOthersParses(s: Servers, i: nat)
    requires RegistryOk(s) && i < |s.rows| && |s.rows| >= 2
    ensures ParseCidr(s.rows[i].addressRange).Ok?
  {
    hide ParseCidr;
    var j := if i == 0 then 1 else 0;
    assert Disjoint(s.rows[i].addressRange, s.rows[j].addressRange);
  }

  lemma LoneConflict(row: ServerRow, range: string)
    requires ParseCidr(row.addressRange).Err?
    ensures FirstConflict(List([row]), range) == Some(RegistryError.Internal)
  {
    hide ParseCidr;
    SortKeepsElements([row], NameOf);
    assert List([row])[0] in multiset(List([row]));
  }

  /** `delete` takes the one server, and the others stay as they are. */
  lemma DeletedExactly(s: Servers, id: nat)
    requires RegistryOk(s)
    ensures DeleteServer(s, id) == Err(NotFound) <==> forall row :: row in s.rows ==> row.id != id
    ensures DeleteServer(s, id).Err? ==> DeleteServer(s, id) == Err(NotFound)
    ensures DeleteServer(s, id).Ok? ==>
              var after := DeleteServer(s, id).value;
              && after.nextId == s.nextId && |after.rows| == |s.rows| - 1
              && forall row :: row in after.rows <==> row in s.rows && row.id != id
  {
    hide Disjoint;
    match FindServer(s.rows, id)
    case None =>
    case Some(i) =>
      assert s.rows == s.rows[..i] + [s.rows[i]] + s.rows[i + 1..];
      assert s.rows[i] in s.rows;
  }

  /**
   `update` accepts exactly a free name, a known target, and a range that is unchanged or
   disjoint from all others.
   */
  lemma UpdateSucceedsExactly(s: Servers, id: nat, patch: ServerPatch, targets: set<string>)
    requires RegistryOk(s) && patch.addressRange != Some("")
    ensures UpdateServer(s, id, patch, targets).Ok? <==>
            && FindServer(s.rows, id).Some?
            && (var row := PatchedServer(s.rows[FindServer(s.rows, id).value], patch);
                && (forall i :: 0 <= i < |s.rows| && s.rows[i].id != id ==>
                      s.rows[i].name != row.name && Disjoint(s.rows[i].addressRange, row.addressRange))
                && TargetKnown(row.sshTargetId, targets))
  {
    hide ParseCidr, FirstConflict, Disjoint, List, Others;
    if FindServer(s.rows, id).Some? {
      var i := FindServer(s.rows, id).value;
      var row := PatchedServer(s.rows[i], patch);
      OthersListedExact(s.rows, id, row.addressRange);
      NameTakenElsewhere(s.rows, i, row.name);
    }
  }

  /**
   What a failing `update` reports: an unknown server, a range in the way, or a name or
   target the database refuses.
   */
  lemma UpdateFailsExactly(s: Servers, id: nat, patch: ServerPatch, targets: set<string>)
    requires RegistryOk(s) && patch.addressRange != Some("")
    ensures var r := UpdateServer(s, id, patch, targets);
            && (r == Err(NotFound) <==> forall row :: row in s.rows ==> row.id != id)
            && (r == Err(Database) ==> FindServer(s.rows, id).Some?)
            && (FindServer(s.rows, id).Some? ==>
                  var row := PatchedServer(s.rows[FindServer(s.rows, id).value], patch);
                  var apart := forall i :: 0 <= i < |s.rows| && s.rows[i].id != id ==>
                    Disjoint(s.rows[i].addressRange, row.addressRange);
                  (if apart then r.Err? ==> r == Err(Database)
                   else r == Err(RangeConflict) || r == Err(RegistryError.Internal)))
  {
    hide ParseCidr, FirstConflict, Disjoint, List, Others, NameTaken;
    match FindServer(s.rows, id)
    case None =>
    case Some(i) =>
      assert s.rows[i] in s.rows;
      var row := PatchedServer(s.rows[i], patch);
      OthersListedExact(s.rows, id, row.addressRange);
      ConflictKind(Others(List(s.rows), id), row.addressRange);
  }

  /** A field left out of a patch keeps its value. */
  function Kept(wanted: Option<string>, before: string): string {
    if wanted.Some? then wanted.value else before
  }

  /** What `update` leaves alone: the other servers, and the keys, place and state of this one. */
  lemma UpdateTouches(s: Servers, id: nat, patch: ServerPatch, targets: set<string>)
    requires UpdateServer(s, id, patch, targets).Ok?
    ensures var i := FindServer(s.rows, id).value;
            var before, after := s.rows[i], UpdateServer(s, id, patch, targets).value.rows[i];
            && UpdateServer(s, id, patch, targets).value == Servers(s.rows[i := after], s.nextId)
            && after == before.(name := after.name, addressRange := after.addressRange,
                                listenEndpoint := after.listenEndpoint, sshTargetId := after.sshTargetId)
            && after.name == Kept(patch.name, before.name)
            && after.addressRange == Kept(patch.addressRange, before.addressRange)
            && after.listenEndpoint == Kept(patch.listenEndpoint, before.listenEndpoint)
            && (if patch.sshTargetId.Some? then after.sshTargetId == patch.sshTargetId
                else after.sshTargetId == before.sshTargetId)
  {
    hide ParseCidr, FirstConflict, List, Scanned, NameTaken;
  }

  lemma NameTakenElsewhere(rows: seq<ServerRow>, i: nat, name: string)
    requires i < |rows|
    ensures NameTaken(rows[..i] + rows[i + 1..], name) <==>
            exists j :: 0 <= j < |rows| && j != i && rows[j].name == name
  {
    var rest := rows[..i] + rows[i + 1..];
    if j :| 0 <= j < |rows| && j != i && rows[j].name == name {
      assert rest[if j < i then j else j - 1] == rows[j];
    }
    if k :| 0 <= k < |rest| && rest[k].name == name {
      assert rows[if k < i then k else k + 1] == rest[k];
    }
  }

  lemma UpdateKeeps(s: Servers, id: nat, patch: ServerPatch, targets: set<string>)
    requires RegistryOk(s) && patch.addressRange != Some("")
    ensures UpdateServer(s, id, patch, targets).Ok? ==> RegistryOk(UpdateServer(s, id, patch, targets).value)
  {
    hide ParseCidr, FirstConflict, Disjoint, List, Others, NameTaken;
    if UpdateServer(s, id, patch, targets).Ok? {
      var i := FindServer(s.rows, id).value;
      var row := PatchedServer(s.rows[i], patch);
      NameTakenElsewhere(s.rows, i, row.name);
      if row.addressRange != s.rows[i].addressRange {
        OthersListedExact(s.rows, id, row.addressRange);
      }
      forall j | 0 <= j < |s.rows| && j != i
        ensures Disjoint(s.rows[j].addressRange, row.addressRange) && Disjoint(row.addressRange, s.rows[j].addressRange)
        ensures s.rows[j].name != row.name
      {
        NoOverlapIsDisjoint(s.rows[j].addressRange, row.addressRange);
      }
    }
  }

  lemma DeleteKeeps(s: Servers, id: nat)
    requires RegistryOk(s)
    ensures RegistryOk(Servers(WithoutRow(s.rows, id), s.nextId))
  {
    hide Disjoint;
  }

  datatype Op =
    | Create(input: CreateServerInput, targets: set<string>, privateKey: string, publicKey: string)
    | Update(id: nat, patch: ServerPatch, targets: set<string>)
    | Delete(id: nat)
    | SetStatus(id: nat, status: ServerStatus)

  function Outcome(s: Servers, op: Op): Result<Servers, RegistryError> {
    match op
    case Create(input, targets, privateKey, publicKey) => CreateServer(s, input, targets, privateKey, publicKey)
    case Update(id, patch, targets) => UpdateServer(s, id, patch, targets)
    case Delete(id) => DeleteServer(s, id)
    case SetStatus(id, status) => Ok(Servers(WithStatus(s.rows, id, status), s.nextId))
  }

  function Step(s: Servers, op: Op): Servers {
    match Outcome(s, op)
    case Ok(s') => s'
    case Err(_) => s
  }

  function Run(s: Servers, ops: seq<Op>): Servers {
    if ops == [] then s else Step(Run(s, ops[..|ops| - 1]), ops[|ops| - 1])
  }

  /** Request validation rejects an empty address range before the service sees it. */
  predicate Validated(op: Op) {
    op.Update? ==> op.patch.addressRange != Some("")
  }

  /** Over any run of create, update, delete and status changes, any two servers have well-formed, disjoint ranges. */
  lemma {:induction false} RangesStayDisjoint(ops: seq<Op>)
    requires forall k :: 0 <= k < |ops| ==> Validated(ops[k])
    ensures RegistryOk(Run(Servers([], 0), ops))
  {
    hide CreateServer, UpdateServer, RegistryOk, WithStatus, WithoutRow;
    if ops == [] {
      EmptyRegistry();
    } else {
      var init, op := ops[..|ops| - 1], ops[|ops| - 1];
      RangesStayDisjoint(init);
      var s := Run(Servers([], 0), init);
      match op
      case Create(input, targets, privateKey, publicKey) => CreateKeeps(s, input, targets, privateKey, publicKey);
      case Update(id, patch, targets) => UpdateKeeps(s, id, patch, targets);
      case Delete(id) => DeleteKeeps(s, id);
      case SetStatus(id, status) => StatusKeeps(s, id, status);
    }
  }

  lemma EmptyRegistry()
    ensures RegistryOk(Servers([], 0))
  {
  }

  lemma StatusKeeps(s: Servers, id: nat, status: ServerStatus)
    requires RegistryOk(s)
    ensures RegistryOk(Servers(WithStatus(s.rows, id, status), s.nextId))
  {
    hide Disjoint;
  }

  // ---------------------------------------------------------------- the range `update` does not parse

  /**
   `update` parses a new range only by comparing it with other servers: it stores
   a malformed one exactly when there is no other server.
   */
  lemma MalformedRangeStoredExactly(s: Servers, id: nat, range: string, targets: set<string>)
    requires RegistryOk(s) && FindServer(s.rows, id).Some?
    requires TargetKnown(s.rows[FindServer(s.rows, id).value].sshTargetId, targets)
    requires range != "" && ParseCidr(range).Err?
    ensures UpdateServer(s, id, ServerPatch(None, Some(range), None, None), targets).Ok? <==> |s.rows| == 1
  {
    hide ParseCidr, FirstConflict, List, Others;
    var i := FindServer(s.rows, id).value;
    OthersListedExact(s.rows, id, range);
    var rest := s.rows[..i] + s.rows[i + 1..];
    if |s.rows| == 1 {
      assert rest == [];
    } else {
      var j := if i == 0 then 1 else 0;
      assert Disjoint(s.rows[i].addressRange, s.rows[j].addressRange);
    }
  }

  /** The concrete case: a lone server whose range becomes `nonsense`. */
  lemma LoneServerTakesNonsense(row: ServerRow)
    requires row.id == 0 && row.sshTargetId == None
    ensures UpdateServer(Servers([row], 1), 0, ServerPatch(None, Some("nonsense"), None, None), {})
            == Ok(Servers([row.(addressRange := "nonsense")], 1))
    ensures ParseCidr("nonsense").Err?
  {
    hide ParseCidr, FirstConflict, List, Others;
    var s := Servers([row], 1);
    NonsenseIsMalformed();
    assert FindServer(s.rows, 0) == Some(0);
    MalformedRangeStoredExactly(s, 0, "nonsense", {});
    assert s.rows[0 := row.(addressRange := "nonsense")] == [row.(addressRange := "nonsense")];
  }

  lemma NonsenseIsMalformed()
    ensures ParseCidr("nonsense").Err?
  {
    hide IpToIntSafe, Text.ParseInt;
    Text.SplitHead("nonsense", '/');
  }

  // ---------------------------------------------------------------- the service

  lemma ScannedNext(rows: seq<ServerRow>, except: Option<nat>)
    requires rows != []
    ensures Scanned(rows, except) ==
            if except == Some(rows[0].id) then Scanned(rows[1..], except) else [rows[0]] + Scanned(rows[1..], except)
  {
    assert rows == [rows[0]] + rows[1..];
  }

  lemma ConflictNext(row: ServerRow, rest: seq<ServerRow>, range: string)
    ensures FirstConflict([row] + rest, range) ==
            match CidrsOverlap(row.addressRange, range)
            case Err(_) => Some(Internal)
            case Ok(true) => Some(RangeConflict)
            case Ok(false) => FirstConflict(rest, range)
  {
    hide CidrsOverlap;
    assert ([row] + rest)[1..] == rest;
  }

  lemma ScannedNothing(range: string, except: Option<nat>)
    ensures FirstConflict(Scanned([], except), range) == None
  {
  }

  class ServerService {
    const servers: ServerRepo
    const devices: DeviceRepo

    constructor (servers: ServerRepo, devices: DeviceRepo)
      ensures this.servers == servers && this.devices == devices
    {
      this.servers, this.devices := servers, devices;
    }

    /** The loop of `create` and `update`; `except` is the server being updated. */
    method ScanConflicts(range: string, except: Option<nat>) returns (conflict: Option<RegistryError>)
      ensures conflict == FirstConflict(Scanned(List(servers.rows), except), range)
    {
      hide CidrsOverlap, List, FirstConflict, Scanned;
      var all := List(servers.rows);
      for i := 0 to |all|
        invariant FirstConflict(Scanned(all, except), range) == FirstConflict(Scanned(all[i..], except), range)
      {
        assert all[i..][1..] == all[i + 1..];
        ScannedNext(all[i..], except);
        if except != Some(all[i].id) {
          ConflictNext(all[i], Scanned(all[i + 1..], except), range);
          match CidrsOverlap(all[i].addressRange, range) {
            case Err(_) => return Some(Internal);
            case Ok(meets) =>
              if meets {
                return Some(RangeConflict);
              }
          }
        }
      }
      ScannedNothing(range, except);
      conflict := None;
    }

    method Create(input: CreateServerInput, targets: set<string>, privateKey: string, publicKey: string)
      returns (r: Result<nat, RegistryError>)
      modifies servers
      ensures match CreateServer(old(servers.State()), input, targets, privateKey, publicKey)
              case Ok(s) => servers.State() == s && r == Ok(old(servers.nextId))
              case Err(e) => servers.State() == old(servers.State()) && r == Err(e)
    {
      hide ParseCidr, List, FirstConflict;
      if ParseCidr(input.addressRange).Err? {
        return Err(Validation);
      }
      if input.location == Remote && !Truthy(input.sshTargetId) {
        return Err(Validation);
      }
      if Truthy(input.sshTargetId) && input.sshTargetId.value !in targets {
        return Err(Validation);
      }
      if NameTaken(servers.rows, input.name) {
        return Err(NameConflict);
      }
      var conflict := ScanConflicts(input.addressRange, None);
      if conflict.Some? {
        return Err(conflict.value);
      }
      var created := servers.Create(NewServer(input, privateKey, publicKey), targets);
      match created
      case Ok(id) => r := Ok(id);
      case Err(_) => r := Err(Database);
    }

    method Update(id: nat, patch: ServerPatch, targets: set<string>) returns (r: Result<(), RegistryError>)
      modifies servers
      ensures match UpdateServer(old(servers.State()), id, patch, targets)
              case Ok(s) => servers.State() == s && r == Ok(())
              case Err(e) => servers.State() == old(servers.State()) && r == Err(e)
    {
      hide List, Others, FirstConflict;
      var found := servers.Get(id);
      if found.None? {
        return Err(NotFound);
      }
      if Truthy(patch.addressRange) && patch.addressRange.value != found.value.addressRange {
        var conflict := ScanConflicts(patch.addressRange.value, Some(id));
        if conflict.Some? {
          return Err(conflict.value);
        }
      }
      var written := servers.Update(id, patch, targets);
      match written
      case Ok(_) => r := Ok(());
      case Err(_) => r := Err(Database);
    }

    /** Deleting a server takes its devices with it. */
    method Delete(id: nat) returns (r: Result<(), RegistryError>)
      modifies servers, devices
      ensures match DeleteServer(old(servers.State()), id)
              case Ok(s) =>
                && servers.State() == s && r == Ok(())
                && devices.State() == ServerDropped(old(devices.State()), id)
              case Err(e) =>
                servers.State() == old(servers.State()) && devices.State() == old(devices.State()) && r == Err(e)
    {
      var found := servers.Get(id);
      if found.None? {
        return Err(NotFound);
      }
      servers.Delete(id);
      devices.DeleteByServer(id);
      r := Ok(());
    }
  }
}
