/** The server table (backend/src/store/servers.ts). */
module ServerStore {
  import opened Wrappers
  import opened Lookup
  import opened Sorting
  import opened DeviceStore

  datatype Location = Local | Remote

  datatype ServerStatus = Up | Down | Unknown

  datatype ServerRow = ServerRow(
    id: nat,
    name: string,
    location: Location,
    interfaceName: string,
    addressRange: string,
    listenEndpoint: string,
    privateKey: string,
    publicKey: string,
    sshTargetId: Option<string>,
    status: ServerStatus)

  datatype Servers = Servers(rows: seq<ServerRow>, nextId: nat)

  /** A UNIQUE or FOREIGN KEY constraint refused a write. */
  datatype ConstraintError = Refused

  function NameOf(row: ServerRow): string {
    row.name
  }

  /** `list`: every row, by name. */
  function List(rows: seq<ServerRow>): seq<ServerRow> {
    SortByName(rows, NameOf)
  }

  function ServerId(row: ServerRow): nat {
    row.id
  }

  function FindServer(rows: seq<ServerRow>, id: nat): (r: Option<nat>)
    ensures r.Some? ==> r.value < |rows| && rows[r.value].id == id
    ensures r.None? ==> forall i :: 0 <= i < |rows| ==> rows[i].id != id
  {
    FindBy(rows, id, ServerId)
  }

  predicate NameTaken(rows: seq<ServerRow>, name: string) {
    exists i :: 0 <= i < |rows| && rows[i].name == name
  }

  function InsertServer(s: Servers, row: ServerRow, targets: set<string>): Result<Servers, ConstraintError> {
    if NameTaken(s.rows, row.name) || !TargetKnown(row.sshTargetId, targets) then Err(Refused)
    else Ok(Servers(s.rows + [row.(id := s.nextId)], s.nextId + 1))
  }

  datatype ServerPatch = ServerPatch(
    name: Option<string>,
    addressRange: Option<string>,
    listenEndpoint: Option<string>,
    sshTargetId: Option<string>)

  /** `update` keeps the stored value of every field the patch leaves out. */
  function PatchedServer(row: ServerRow, patch: ServerPatch): ServerRow {
    row.(name := if patch.name.Some? then patch.name.value else row.name,
         addressRange := if patch.addressRange.Some? then patch.addressRange.value else row.addressRange,
         listenEndpoint := if patch.listenEndpoint.Some? then patch.listenEndpoint.value else row.listenEndpoint,
         sshTargetId := if patch.sshTargetId.Some? then patch.sshTargetId else row.sshTargetId)
  }

  /** Writes row `i`, refused when its name is another row's or its target is unknown. */
  function WriteServer(s: Servers, i: nat, row: ServerRow, targets: set<string>): Result<Servers, ConstraintError>
    requires i < |s.rows|
  {
    if NameTaken(s.rows[..i] + s.rows[i + 1..], row.name) || !TargetKnown(row.sshTargetId, targets) then Err(Refused)
    else Ok(Servers(s.rows[i := row], s.nextId))
  }

  /** Recording a status changes that of the one server. */
  lemma StatusExact(rows: seq<ServerRow>, id: nat, status: ServerStatus)
    requires forall i, j :: 0 <= i < j < |rows| ==> rows[i].id != rows[j].id
    ensures |WithStatus(rows, id, status)| == |rows|
    ensures forall i :: 0 <= i < |rows| ==>
              WithStatus(rows, id, status)[i] == if rows[i].id == id then rows[i].(status := status) else rows[i]
  {
  }

  class ServerRepo {
    var rows: seq<ServerRow>
    var nextId: nat

    ghost function State(): Servers
      reads this
    {
      Servers(rows, nextId)
    }

    constructor ()
      ensures State() == Servers([], 0)
    {
      rows, nextId := [], 0;
    }

    method Get(id: nat) returns (row: Option<ServerRow>)
      ensures match FindServer(rows, id) case None => row == None case Some(i) => row == Some(rows[i])
    {
      match FindServer(rows, id)
      case None => row := None;
      case Some(i) => row := Some(rows[i]);
    }

    method Create(row: ServerRow, targets: set<string>) returns (r: Result<nat, ConstraintError>)
      modifies this
      ensures match InsertServer(old(State()), row, targets)
              case Ok(s) => State() == s && r == Ok(old(nextId))
              case Err(e) => State() == old(State()) && r == Err(e)
    {
      if NameTaken(rows, row.name) || !TargetKnown(row.sshTargetId, targets) {
        return Err(Refused);
      }
      rows := rows + [row.(id := nextId)];
      nextId := nextId + 1;
      r := Ok(nextId - 1);
    }

    method Update(id: nat, patch: ServerPatch, targets: set<string>) returns (r: Result<(), ConstraintError>)
      modifies this
      ensures match FindServer(old(rows), id)
              case None => State() == old(State()) && r == Ok(())
              case Some(i) =>
                match WriteServer(old(State()), i, PatchedServer(old(rows)[i], patch), targets)
                case Ok(s) => State() == s && r == Ok(())
                case Err(e) => State() == old(State()) && r == Err(e)
    {
      match FindServer(rows, id)
      case None => r := Ok(());
      case Some(i) =>
        var row := PatchedServer(rows[i], patch);
        if NameTaken(rows[..i] + rows[i + 1..], row.name) || !TargetKnown(row.sshTargetId, targets) {
          return Err(Refused);
        }
        rows := rows[i := row];
        r := Ok(());
    }

    method SetStatus(id: nat, status: ServerStatus)
      modifies this
      ensures State() == Servers(WithStatus(old(rows), id, status), old(nextId))
    {
      match FindServer(rows, id)
      case None =>
      case Some(i) => rows := rows[i := rows[i].(status := status)];
    }

    method Delete(id: nat)
      modifies this
      ensures State() == Servers(WithoutRow(old(rows), id), old(nextId))
    {
      match FindServer(rows, id)
      case None =>
      case Some(i) => rows := rows[..i] + rows[i + 1..];
    }
  }

  function WithStatus(rows: seq<ServerRow>, id: nat, status: ServerStatus): seq<ServerRow> {
    match FindServer(rows, id)
    case None => rows
    case Some(i) => rows[i := rows[i].(status := status)]
  }

  function WithoutRow(rows: seq<ServerRow>, id: nat): seq<ServerRow> {
    match FindServer(rows, id)
    case None => rows
    case Some(i) => rows[..i] + rows[i + 1..]
  }
}
