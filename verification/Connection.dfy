/**
 Choosing the jump host for an SSH connection (backend/src/remote/connection.ts),
 and why disjoint address ranges make the choice well defined.
 */
module Connection {
  import opened Wrappers
  import opened Sorting
  import opened Net
  import opened DeviceStore
  import opened ServerStore
  import opened Registry

  datatype SshTarget = SshTarget(host: string, port: int, username: string, privateKey: string,
      knownHostKey: Option<string>)

  datatype ConnInfo = ConnInfo(
    host: string,
    port: int,
    username: string,
    privateKey: string,
    knownHostKey: Option<string>,
    jump: Option<ConnInfo>)

  datatype Jump = Jump(info: ConnInfo, targetId: string)

  datatype Resolved = Resolved(info: ConnInfo, targetId: string, jumpTargetId: Option<string>)

  /** The tables a resolution looks up: devices in creation order, servers, SSH targets by id. */
  datatype Tables = Tables(devices: seq<DeviceRow>, servers: seq<ServerRow>, targets: map<string, SshTarget>)

  /** `connectionInfo`: never with a jump of its own. */
  function ConnectionInfo(w: Tables, targetId: string): Option<ConnInfo> {
    if targetId !in w.targets then None
    else
      var t := w.targets[targetId];
      Some(ConnInfo(t.host, t.port, t.username, t.privateKey, t.knownHostKey, None))
  }

  function ResolveJump(w: Tables, serverId: nat, host: string, targetId: string): Result<Option<Jump>, NetError> {
    match FindServer(w.servers, serverId)
    case None => Ok(None)
    case Some(i) =>
      var server := w.servers[i];
      if server.location != Remote || !Truthy(server.sshTargetId) then Ok(None)
      else if server.sshTargetId.value == targetId then Ok(None)
      else
        match AddressInRange(host, server.addressRange)
        case Err(e) => Err(e)
        case Ok(false) => Ok(None)
        case Ok(true) =>
          match ConnectionInfo(w, server.sshTargetId.value)
          case None => Ok(None)
          case Some(info) => Ok(Some(Jump(info, server.sshTargetId.value)))
  }

  function Through(info: ConnInfo, targetId: string, jump: Option<Jump>): Resolved {
    Resolved(info.(jump := if jump.Some? then Some(jump.value.info) else None), targetId,
             if jump.Some? then Some(jump.value.targetId) else None)
  }

  function ResolveDevice(w: Tables, deviceId: nat): Result<Option<Resolved>, NetError> {
    match Find(w.devices, deviceId)
    case None => Ok(None)
    case Some(i) =>
      var device := w.devices[i];
      if !Truthy(device.sshTargetId) then Ok(None)
      else
        match ConnectionInfo(w, device.sshTargetId.value)
        case None => Ok(None)
        case Some(info) =>
          match ResolveJump(w, device.serverId, info.host, device.sshTargetId.value)
          case Err(e) => Err(e)
          case Ok(jump) => Ok(Some(Through(info, device.sshTargetId.value, jump)))
  }

  /** `findBySshTarget`: the server of the first device created with this target. */
  function ServerOfTarget(devices: seq<DeviceRow>, targetId: string): Option<nat> {
    if devices == [] then None
    else if devices[0].sshTargetId == Some(targetId) then Some(devices[0].serverId)
    else ServerOfTarget(devices[1..], targetId)
  }

  /** The first listed server whose range covers the host; looking at a malformed range throws. */
  function FirstCovering(servers: seq<ServerRow>, host: string): Result<Option<nat>, NetError> {
    if servers == [] then Ok(None)
    else
      match AddressInRange(host, servers[0].addressRange)
      case Err(e) => Err(e)
      case Ok(true) => Ok(Some(servers[0].id))
      case Ok(false) => FirstCovering(servers[1..], host)
  }

  function ChosenServer(w: Tables, targetId: string, host: string): Result<Option<nat>, NetError> {
    match ServerOfTarget(w.devices, targetId)
    case Some(id) => Ok(Some(id))
    case None => FirstCovering(List(w.servers), host)
  }

  function ResolveTarget(w: Tables, targetId: string): Result<Option<Resolved>, NetError> {
    match ConnectionInfo(w, targetId)
    case None => Ok(None)
    case Some(info) =>
      match ChosenServer(w, targetId, info.host)
      case Err(e) => Err(e)
      case Ok(None) => Ok(Some(Through(info, targetId, None)))
      case Ok(Some(serverId)) =>
        match ResolveJump(w, serverId, info.host, targetId)
        case Err(e) => Err(e)
        case Ok(jump) => Ok(Some(Through(info, targetId, jump)))
  }

  // ---------------------------------------------------------------- the covering server

  predicate Covers(server: ServerRow, host: string) {
    AddressInRange(host, server.addressRange) == Ok(true)
  }

  /** Two different servers with disjoint ranges never cover the same host. */
  lemma OneCover(a: ServerRow, b: ServerRow, host: string)
    requires Disjoint(a.addressRange, b.addressRange)
    ensures !(Covers(a, host) && Covers(b, host))
  {
    hide ParseCidr, IpToIntSafe, AddressInRange, InBlock;
    AddressInRangeExact(host, a.addressRange);
    AddressInRangeExact(host, b.addressRange);
  }

  /** Any two of the rows are disjoint: what the registry keeps, for rows in any order. */
  ghost predicate PairwiseDisjoint(servers: seq<ServerRow>) {
    forall i, j :: 0 <= i < |servers| && 0 <= j < |servers| && i != j ==>
      servers[i].id != servers[j].id && Disjoint(servers[i].addressRange, servers[j].addressRange)
  }

  /** In a list of disjoint servers the first covering one is the only covering one. */
  lemma {:induction false} FirstCoveringExact(servers: seq<ServerRow>, host: string)
    requires forall i :: 0 <= i < |servers| ==> ParseCidr(servers[i].addressRange).Ok?
    requires PairwiseDisjoint(servers)
    ensures FirstCovering(servers, host).Ok?
    ensures forall row :: row in servers && Covers(row, host) ==> FirstCovering(servers, host) == Ok(Some(row.id))
    ensures FirstCovering(servers, host).value.Some? ==>
              exists row :: row in servers && Covers(row, host) && FirstCovering(servers, host) == Ok(Some(row.id))
  {
    hide ParseCidr, AddressInRange, Disjoint;
    if servers != [] {
      FirstCoveringExact(servers[1..], host);
      assert servers == [servers[0]] + servers[1..];
      RangeTestAnswers(host, servers[0].addressRange);
      forall row | row in servers[1..]
        ensures !(Covers(servers[0], host) && Covers(row, host))
      {
        var i :| 0 < i < |servers| && servers[i] == row;
        OneCover(servers[0], row, host);
      }
    }
  }

  lemma RangeTestAnswers(host: string, range: string)
    requires ParseCidr(range).Ok?
    ensures AddressInRange(host, range).Ok?
  {
    hide ParseCidr, IpToIntSafe;
  }

  /**
   The covering-server fallback does not depend on the order of the list: any two
   listings of the same registered servers give the same answer.
   */
  lemma FallbackIgnoresOrder(s: Servers, listed: seq<ServerRow>, host: string)
    requires RegistryOk(s) && multiset(listed) == multiset(s.rows)
    ensures FirstCovering(listed, host) == FirstCovering(s.rows, host)
  {
    hide ParseCidr, AddressInRange, Disjoint, FirstCovering;
    SameLength(listed, s.rows);
    forall row
      ensures row in listed <==> row in s.rows
    {
      assert row in listed <==> row in multiset(listed);
      assert row in s.rows <==> row in multiset(s.rows);
    }
    if |s.rows| <= 1 {
      if |s.rows| == 1 {
        assert listed[0] in listed;
      }
      assert listed == s.rows;
    } else {
      RegistryPairwise(s);
      ReorderedPairwise(s, listed);
      FirstCoveringExact(s.rows, host);
      FirstCoveringExact(listed, host);
    }
  }

  lemma SameLength<T>(a: seq<T>, b: seq<T>)
    requires multiset(a) == multiset(b)
    ensures |a| == |b|
  {
    assert |multiset(a)| == |a| && |multiset(b)| == |b|;
  }

  lemma RegistryPairwise(s: Servers)
    requires RegistryOk(s) && |s.rows| >= 2
    ensures PairwiseDisjoint(s.rows)
    ensures forall i :: 0 <= i < |s.rows| ==> ParseCidr(s.rows[i].addressRange).Ok?
  {
    hide ParseCidr;
    forall i | 0 <= i < |s.rows|
      ensures ParseCidr(s.rows[i].addressRange).Ok?
    {
      var j := if i == 0 then 1 else 0;
      assert Disjoint(s.rows[i].addressRange, s.rows[j].addressRange);
    }
  }

  lemma ReorderedPairwise(s: Servers, listed: seq<ServerRow>)
    requires RegistryOk(s) && |s.rows| >= 2 && multiset(listed) == multiset(s.rows)
    ensures PairwiseDisjoint(listed)
    ensures forall i :: 0 <= i < |listed| ==> ParseCidr(listed[i].addressRange).Ok?
  {
    hide ParseCidr, Disjoint;
    RegistryPairwise(s);
    assert NoRepeat(s.rows);
    NoRepeatCounts(s.rows);
    forall row
      ensures row in listed <==> row in s.rows
    {
      assert row in listed <==> row in multiset(listed);
      assert row in s.rows <==> row in multiset(s.rows);
    }
    NoRepeatCounts(listed);
    assert NoRepeat(listed);
    forall i, j | 0 <= i < |listed| && 0 <= j < |listed| && i != j
      ensures listed[i].id != listed[j].id && Disjoint(listed[i].addressRange, listed[j].addressRange)
    {
      assert listed[i] != listed[j];
      assert listed[i] in s.rows && listed[j] in s.rows;
    }
    forall i | 0 <= i < |listed|
      ensures ParseCidr(listed[i].addressRange).Ok?
    {
      assert listed[i] in s.rows;
    }
  }

  // ---------------------------------------------------------------- the jump

  /** The jump goes through this server, on behalf of the target. */
  predicate JumpsVia(w: Tables, server: ServerRow, targetId: string, r: Resolved) {
    && server in w.servers
    && server.location == Remote
    && targetId in w.targets && Covers(server, w.targets[targetId].host)
    && server.sshTargetId.Some? && r.jumpTargetId == server.sshTargetId
    && server.sshTargetId.value != targetId
    && server.sshTargetId.value in w.targets
    && r.info.jump == ConnectionInfo(w, server.sshTargetId.value)
  }

  /** Any way the application resolves a connection to the target: for a device, or for the target itself. */
  ghost predicate Resolves(w: Tables, targetId: string, r: Resolved) {
    r.targetId == targetId &&
    (ResolveTarget(w, targetId) == Ok(Some(r)) || exists deviceId: nat :: ResolveDevice(w, deviceId) == Ok(Some(r)))
  }

  lemma ResolvedJump(w: Tables, serverId: nat, targetId: string)
    requires targetId in w.targets
    requires ResolveJump(w, serverId, w.targets[targetId].host, targetId).Ok?
    ensures var jump := ResolveJump(w, serverId, w.targets[targetId].host, targetId).value;
            var r := Through(ConnectionInfo(w, targetId).value, targetId, jump);
            && r.info == ConnectionInfo(w, targetId).value.(jump := r.info.jump)
            && (jump.Some? ==> exists server :: JumpsVia(w, server, targetId, r))
            && (jump.None? ==> r.jumpTargetId == None && r.info.jump == None)
  {
    hide AddressInRange;
    var jump := ResolveJump(w, serverId, w.targets[targetId].host, targetId).value;
    if jump.Some? {
      var server := w.servers[FindServer(w.servers, serverId).value];
      assert JumpsVia(w, server, targetId, Through(ConnectionInfo(w, targetId).value, targetId, jump));
    }
  }

  /**
   A jump host is the SSH target of a remote server whose range holds the host,
   is never the target itself, and has no further jump; a connection without a
   jump names none.
   */
  lemma JumpExact(w: Tables, targetId: string, r: Resolved)
    requires Resolves(w, targetId, r)
    ensures targetId in w.targets && r.info.host == w.targets[targetId].host
    ensures r.jumpTargetId.Some? <==> r.info.jump.Some?
    ensures r.jumpTargetId.Some? ==> exists server :: JumpsVia(w, server, targetId, r)
    ensures r.jumpTargetId.Some? ==> r.jumpTargetId.value != targetId && r.info.jump.value.jump == None
  {
    hide ResolveJump, ChosenServer, JumpsVia;
    if ResolveTarget(w, targetId) == Ok(Some(r)) {
      var chosen := ChosenServer(w, targetId, w.targets[targetId].host);
      if chosen.value.Some? {
        ResolvedJump(w, chosen.value.value, targetId);
      }
    } else {
      var deviceId: nat :| ResolveDevice(w, deviceId) == Ok(Some(r));
      ResolvedJump(w, w.devices[Find(w.devices, deviceId).value].serverId, targetId);
    }
    if r.jumpTargetId.Some? {
      var server :| JumpsVia(w, server, targetId, r);
      ViaFacts(w, server, targetId, r);
    }
  }

  lemma ViaFacts(w: Tables, server: ServerRow, targetId: string, r: Resolved)
    requires JumpsVia(w, server, targetId, r)
    ensures r.jumpTargetId.Some? && r.jumpTargetId.value != targetId
    ensures r.info.jump.Some? && r.info.jump.value.jump == None
  {
    hide AddressInRange;
  }

  /** Any two resolutions of one target that use a jump use the same one. */
  lemma SameJump(w: Tables, nextId: nat, targetId: string, r1: Resolved, r2: Resolved)
    requires RegistryOk(Servers(w.servers, nextId))
    requires Resolves(w, targetId, r1) && Resolves(w, targetId, r2)
    requires r1.jumpTargetId.Some? && r2.jumpTargetId.Some?
    ensures r1 == r2
  {
    hide Resolves, Disjoint, AddressInRange;
    JumpExact(w, targetId, r1);
    JumpExact(w, targetId, r2);
    var a :| JumpsVia(w, a, targetId, r1);
    var b :| JumpsVia(w, b, targetId, r2);
    var i :| 0 <= i < |w.servers| && w.servers[i] == a;
    var j :| 0 <= j < |w.servers| && w.servers[j] == b;
    if i != j {
      OneCover(a, b, w.targets[targetId].host);
    }
    ResolvedInfo(w, targetId, r1);
    ResolvedInfo(w, targetId, r2);
  }

  lemma ResolvedInfo(w: Tables, targetId: string, r: Resolved)
    requires Resolves(w, targetId, r)
    ensures targetId in w.targets && r.targetId == targetId
    ensures r.info == ConnectionInfo(w, targetId).value.(jump := r.info.jump)
  {
    hide ResolveJump, ChosenServer;
  }

  // ---------------------------------------------------------------- exactly when

  /** The connection goes to the target: its host, port, user, key and known host key. */
  predicate Dials(info: ConnInfo, t: SshTarget) {
    && info.host == t.host && info.port == t.port && info.username == t.username
    && info.privateKey == t.privateKey && info.knownHostKey == t.knownHostKey
  }

  /** A server that could be jumped through to reach the target: remote, with a target of its own, not this one. */
  predicate MayJump(server: ServerRow, targetId: string) {
    server.location == Remote && Truthy(server.sshTargetId) && server.sshTargetId.value != targetId
  }

  /**
   All there is to say about the answer for a target that belongs to a server. It
   throws exactly when the server may be jumped through and its range does not
   parse. Otherwise the target is dialled, with a jump exactly when the server may
   be jumped through, covers the host, and its own target is known.
   */
  predicate AnswersFor(w: Tables, serverId: nat, targetId: string, answer: Result<Option<Resolved>, NetError>)
    requires targetId in w.targets
  {
    var k := FindServer(w.servers, serverId);
    var may := k.Some? && MayJump(w.servers[k.value], targetId);
    && (answer.Err? <==> may && ParseCidr(w.servers[k.value].addressRange).Err?)
    && (answer.Ok? ==>
          && answer.value.Some?
          && var r := answer.value.value;
          && r.targetId == targetId && Dials(r.info, w.targets[targetId])
          && (r.jumpTargetId.Some? <==> r.info.jump.Some?)
          && (r.jumpTargetId.Some? <==>
                && may && Covers(w.servers[k.value], w.targets[targetId].host)
                && w.servers[k.value].sshTargetId.value in w.targets)
          && (r.jumpTargetId.Some? ==>
                && r.jumpTargetId == w.servers[k.value].sshTargetId
                && Dials(r.info.jump.value, w.targets[r.jumpTargetId.value]) && r.info.jump.value.jump == None))
  }

  lemma ThroughAnswers(w: Tables, serverId: nat, targetId: string)
    requires targetId in w.targets
    ensures var info := ConnectionInfo(w, targetId).value;
            AnswersFor(w, serverId, targetId,
                match ResolveJump(w, serverId, info.host, targetId)
                case Err(e) => Err(e)
                case Ok(jump) => Ok(Some(Through(info, targetId, jump))))
  {
    hide AddressInRange, ParseCidr;
    var k := FindServer(w.servers, serverId);
    if k.Some? {
      RangeTestThrows(w.targets[targetId].host, w.servers[k.value].addressRange);
    }
  }

  lemma RangeTestThrows(host: string, range: string)
    ensures AddressInRange(host, range).Err? <==> ParseCidr(range).Err?
  {
    hide ParseCidr, IpToIntSafe;
  }

  /**
   The connection of every device. There is none exactly when the device is
   unknown, has no target, or its target is unknown; in these cases no range is
   looked at. Otherwise its own server decides.
   */
  lemma DeviceResolvedExactly(w: Tables, deviceId: nat)
    ensures var k := Find(w.devices, deviceId);
            var targetId := if k.Some? then w.devices[k.value].sshTargetId else None;
            && (ResolveDevice(w, deviceId) == Ok(None) <==> !Truthy(targetId) || targetId.value !in w.targets)
            && (Truthy(targetId) && targetId.value in w.targets ==>
                  AnswersFor(w, w.devices[k.value].serverId, targetId.value, ResolveDevice(w, deviceId)))
  {
    hide ResolveJump, AnswersFor;
    var k := Find(w.devices, deviceId);
    if k.Some? && Truthy(w.devices[k.value].sshTargetId) {
      var device := w.devices[k.value];
      TargetInfo(w, device.sshTargetId.value);
      if device.sshTargetId.value in w.targets {
        ThroughAnswers(w, device.serverId, device.sshTargetId.value);
      }
    }
  }

  /** The first device created with the target. */
  predicate FirstUser(devices: seq<DeviceRow>, targetId: string, k: nat) {
    && k < |devices| && devices[k].sshTargetId == Some(targetId)
    && forall j :: 0 <= j < k ==> devices[j].sshTargetId != Some(targetId)
  }

  /** A target on its own: unknown, there is no connection; used by devices, the server of the first of them decides. */
  lemma BoundTargetResolvedExactly(w: Tables, targetId: string)
    ensures ResolveTarget(w, targetId) == Ok(None) <==> targetId !in w.targets
    ensures targetId in w.targets ==>
              forall k: nat :: FirstUser(w.devices, targetId, k) ==>
                AnswersFor(w, w.devices[k].serverId, targetId, ResolveTarget(w, targetId))
  {
    hide ResolveJump, AnswersFor, FirstCovering, List;
    TargetInfo(w, targetId);
    if targetId in w.targets {
      forall k: nat | FirstUser(w.devices, targetId, k)
        ensures AnswersFor(w, w.devices[k].serverId, targetId, ResolveTarget(w, targetId))
      {
        FirstUserFound(w.devices, targetId, k);
        ThroughAnswers(w, w.devices[k].serverId, targetId);
      }
    }
  }

  lemma {:induction false} FirstUserFound(devices: seq<DeviceRow>, targetId: string, k: nat)
    requires FirstUser(devices, targetId, k)
    ensures ServerOfTarget(devices, targetId) == Some(devices[k].serverId)
    decreases k
  {
    if k > 0 {
      FirstUserFound(devices[1..], targetId, k - 1);
    }
  }

  /**
   With no device bound to it, a target is reached through a jump exactly when
   some remote server with another, known SSH target covers its host.
   */
  lemma UnboundTargetJumpsExactly(w: Tables, nextId: nat, targetId: string)
    requires RegistryOk(Servers(w.servers, nextId))
    requires forall i :: 0 <= i < |w.servers| ==> ParseCidr(w.servers[i].addressRange).Ok?
    requires targetId in w.targets && ServerOfTarget(w.devices, targetId) == None
    ensures ResolveTarget(w, targetId).Ok? && ResolveTarget(w, targetId).value.Some?
    ensures ResolveTarget(w, targetId).value.value.jumpTargetId.Some? <==>
            exists server :: && server in w.servers && server.location == Remote
                             && Covers(server, w.targets[targetId].host)
                             && Truthy(server.sshTargetId) && server.sshTargetId.value != targetId
                             && server.sshTargetId.value in w.targets
  {
    hide Covers, AddressInRange, ParseCidr, FirstCovering, RegistryOk, List, ConnectionInfo, FindServer;
    var host := w.targets[targetId].host;
    TheCover(w.servers, nextId, host);
    TargetInfo(w, targetId);
    var chosen := FirstCovering(List(w.servers), host).value;
    if chosen.Some? {
      var k :| 0 <= k < |w.servers| && FindServer(w.servers, chosen.value) == Some(k) && Covers(w.servers[k], host)
               && forall row :: row in w.servers && Covers(row, host) ==> row == w.servers[k];
      CoverAnswers(w.servers[k], host);
      if Truthy(w.servers[k].sshTargetId) {
        TargetInfo(w, w.servers[k].sshTargetId.value);
      }
      assert w.servers[k] in w.servers;
    }
  }

  /** Resolving such a target throws exactly when a registered range does not parse, which takes a lone server. */
  lemma UnboundTargetFailsExactly(w: Tables, nextId: nat, targetId: string)
    requires RegistryOk(Servers(w.servers, nextId))
    requires targetId in w.targets && ServerOfTarget(w.devices, targetId) == None
    ensures ResolveTarget(w, targetId).Err? <==>
            exists i :: 0 <= i < |w.servers| && ParseCidr(w.servers[i].addressRange).Err?
    ensures ResolveTarget(w, targetId).Err? ==> |w.servers| == 1
  {
    hide AddressInRange, ParseCidr, RegistryOk, ConnectionInfo, ResolveJump;
    TargetInfo(w, targetId);
    if i :| 0 <= i < |w.servers| && ParseCidr(w.servers[i].addressRange).Err? {
      if |w.servers| >= 2 {
        RegistryPairwise(Servers(w.servers, nextId));
      }
      LoneThrows(w.servers[i], w.targets[targetId].host);
      assert w.servers == [w.servers[i]];
    } else {
      UnboundTargetJumpsExactly(w, nextId, targetId);
    }
  }

  lemma LoneThrows(server: ServerRow, host: string)
    requires ParseCidr(server.addressRange).Err?
    ensures FirstCovering(List([server]), host).Err?
  {
    hide ParseCidr;
    SortKeepsElements([server], NameOf);
    assert List([server])[0] in multiset(List([server]));
  }

  lemma TargetInfo(w: Tables, targetId: string)
    ensures ConnectionInfo(w, targetId).Some? <==> targetId in w.targets
    ensures targetId in w.targets ==> ConnectionInfo(w, targetId).value.host == w.targets[targetId].host
  {
  }

  lemma CoverAnswers(server: ServerRow, host: string)
    ensures Covers(server, host) <==> AddressInRange(host, server.addressRange) == Ok(true)
  {
    hide AddressInRange;
  }

  /** The fallback finds the one server that covers the host, if there is one. */
  lemma TheCover(servers: seq<ServerRow>, nextId: nat, host: string)
    requires RegistryOk(Servers(servers, nextId))
    requires forall i :: 0 <= i < |servers| ==> ParseCidr(servers[i].addressRange).Ok?
    ensures FirstCovering(List(servers), host).Ok?
    ensures match FirstCovering(List(servers), host).value
            case None => forall row :: row in servers ==> !Covers(row, host)
            case Some(id) =>
              exists k :: 0 <= k < |servers| && FindServer(servers, id) == Some(k) && Covers(servers[k], host)
                       && forall row :: row in servers && Covers(row, host) ==> row == servers[k]
  {
    hide Covers, AddressInRange, ParseCidr, FirstCovering, Disjoint;
    var s := Servers(servers, nextId);
    SortKeepsElements(servers, NameOf);
    FallbackIgnoresOrder(s, List(servers), host);
    FirstCoveringExact(servers, host);
    var chosen := FirstCovering(servers, host).value;
    if chosen.Some? {
      var cover :| cover in servers && Covers(cover, host) && FirstCovering(servers, host) == Ok(Some(cover.id));
      var k :| 0 <= k < |servers| && servers[k] == cover;
      assert FindServer(servers, cover.id) == Some(k);
      forall row | row in servers && Covers(row, host)
        ensures row == servers[k]
      {
        var m :| 0 <= m < |servers| && servers[m] == row;
        assert row.id == cover.id;
      }
    }
  }
}
