/**
 The system over time: device steps, applies, reconciliations and changes made
 to the interface from outside, in any order. Every such run keeps what the
 results on applying ask of a state, so they hold at every state reached; and
 short runs from the empty table reach each of the failures they speak of.
 */
module Runs {
  import opened Wrappers
  import opened Text
  import opened Sorting
  import opened Net
  import opened DeviceStore
  import opened ServerStore
  import opened Status
  import opened PeerImport
  import opened Profile
  import opened WireGuard
  import opened Apply
  import opened Rendering
  import opened ApplyProofs
  import D = DeviceService
  import Reconcile
  import Bind

  datatype Event =
    | Device(op: D.Op)
    | ApplyNow(server: ServerRow, readOk: bool, syncOk: bool, now: int)
    | ReconcileNow(serverId: nat, readOk: bool, now: int)
    | Outside(up: bool, live: seq<WgPeer>)

  /** The world after an event; `iface` is the interface its live peers belong to. */
  function After(w: World, iface: WgInterface, e: Event): World {
    match e
    case Device(op) => w.(table := D.Step(w.table, op))
    case ApplyNow(server, readOk, syncOk, now) => ApplyStep(w, server, iface, readOk, syncOk, now).world
    case ReconcileNow(serverId, readOk, now) =>
      w.(table := Reconcile.Imported(w.table, serverId, if readOk then Some(LiveStatuses(w, iface, now)) else None))
    case Outside(up, live) => World(w.table, up, live)
  }

  const START_WORLD := World(EMPTY, false, [])

  function RunOf(iface: WgInterface, events: seq<Event>): World {
    if events == [] then START_WORLD else After(RunOf(iface, events[..|events| - 1]), iface, events[|events| - 1])
  }

  /** Generated keys are well formed, and what was read from `wg` is what a kernel prints. */
  predicate CleanOp(op: D.Op) {
    match op
    case Add(_, _, _, keys) => KeyOk(keys.publicKey)
    case Rotate(_, keys) => KeyOk(keys.publicKey)
    case Import(_, peers) => forall i :: 0 <= i < |peers| ==> KernelStatus(peers[i])
    case _ => true
  }

  /** Nothing is asked of an event but that keys are generated and that a kernel is a kernel. */
  ghost predicate Possible(w: World, e: Event) {
    match e
    case Device(op) => D.Generated(w.table, op) && CleanOp(op)
    case ApplyNow(server, _, _, _) => KeyOk(server.privateKey)
    case ReconcileNow(_, _, _) => true
    case Outside(up, live) => KernelOk(live) && (!up ==> live == [])
  }

  ghost predicate PossibleRun(iface: WgInterface, events: seq<Event>) {
    forall k :: 0 <= k < |events| ==> Possible(RunOf(iface, events[..k]), events[k])
  }

  // ---------------------------------------------------------------- every event keeps the state fit

  lemma StepClean(t: Table, op: D.Op)
    requires CleanRows(t.rows) && CleanOp(op)
    ensures CleanRows(D.Step(t, op).rows)
  {
    hide KeyOk, AllPrinted, IpToIntSafe, ImportAll, KernelStatus, ShownEntries, D.AddDevice, D.AdoptDevice,
         D.UpdateDevice, D.RotateDevice, WithoutServer, Edit;
    match op {
      case Add(serverId, range, input, keys) => AddClean(t, serverId, range, input, keys);
      case Import(serverId, peers) =>
        ImportAllClean(t, serverId, peers);
        if ImportAll(t, serverId, peers).Ok? {
          CleanAdditionClean(t.rows, ImportAll(t, serverId, peers).value.table.rows, serverId);
        }
      case AdoptOp(id, name, segmentId) => AdoptClean(t, id, name, segmentId);
      case Update(id, patch) => UpdateClean(t, id, patch);
      case Rotate(id, keys) => RotateClean(t, id, keys);
      case Remove(id) =>
      case DropServer(serverId) =>
        var kept := WithoutServer(t.rows, serverId);
        forall i | 0 <= i < |kept|
          ensures CleanRow(kept[i])
        {
          WithoutServerExact(t.rows, serverId, kept[i]);
        }
      case Refer(kept) =>
    }
  }

  lemma AddClean(t: Table, serverId: nat, range: Option<string>, input: D.CreateInput, keys: D.KeyPair)
    requires CleanRows(t.rows) && KeyOk(keys.publicKey)
    ensures D.AddDevice(t, serverId, range, input, keys).Ok? ==>
            CleanRows(D.AddDevice(t, serverId, range, input, keys).value.rows)
  {
    hide KeyOk, AllPrinted, IpToIntSafe, ShownEntries, D.ChosenAddress, UsedCidrs, ParseCidr, Assignable, Clashes;
    if range.Some? && D.ChosenAddress(range.value, input.tunnelAddress, UsedCidrs(t.rows, serverId)).Ok? {
      D.ChosenIsAssignable(range.value, input.tunnelAddress, UsedCidrs(t.rows, serverId));
    }
  }

  lemma EditClean(t: Table, id: nat, change: Change)
    requires CleanRows(t.rows) && (change.Rekey? ==> KeyOk(change.publicKey))
    ensures CleanRows(Edited(t.rows, id, change))
    ensures Edit(t, id, change).Ok? ==> CleanRows(Edit(t, id, change).value.rows)
  {
    hide KeyOk, AllPrinted, IpToIntSafe, ShownEntries;
  }

  lemma AdoptClean(t: Table, id: nat, name: string, segmentId: Option<Option<string>>)
    requires CleanRows(t.rows)
    ensures CleanRows(D.AdoptDevice(t, id, name, segmentId).table.rows)
  {
    hide CleanRow, Edit, Edited;
    EditClean(t, id, Change.Adopt(name));
    if Find(t.rows, id).Some? && segmentId.Some? {
      var row := t.rows[Find(t.rows, id).value];
      EditClean(t.(rows := Edited(t.rows, id, Change.Adopt(name))), id,
          Patch(name, segmentId.value, row.macAddress, row.sshTargetId));
    }
  }

  lemma UpdateClean(t: Table, id: nat, patch: D.UpdateInput)
    requires CleanRows(t.rows)
    ensures D.UpdateDevice(t, id, patch).Ok? ==> CleanRows(D.UpdateDevice(t, id, patch).value.rows)
  {
    hide CleanRow, Edit;
    if Find(t.rows, id).Some? {
      EditClean(t, id, D.PatchFor(t.rows[Find(t.rows, id).value], patch));
    }
  }

  lemma RotateClean(t: Table, id: nat, keys: D.KeyPair)
    requires CleanRows(t.rows) && KeyOk(keys.publicKey)
    ensures D.RotateDevice(t, id, keys).Ok? ==> CleanRows(D.RotateDevice(t, id, keys).value.rows)
  {
    hide CleanRow, Edit, Edited, KeyOk;
    EditClean(t, id, Rekey(keys.publicKey, keys.privateKey));
  }

  /** Reading the live peers for the view leaves the table an apply would have read. */
  lemma ReconcileReads(w: World, iface: WgInterface, serverId: nat, readOk: bool, now: int)
    ensures Reconcile.Imported(w.table, serverId, if readOk then Some(LiveStatuses(w, iface, now)) else None)
         == AfterRead(w, serverId, iface, readOk, now)
  {
    hide ImportAll, LiveStatuses;
  }

  lemma EventKeeps(w: World, iface: WgInterface, e: Event)
    requires WorldOk(w, iface) && CleanRows(w.table.rows) && Possible(w, e)
    ensures WorldOk(After(w, iface, e), iface) && CleanRows(After(w, iface, e).table.rows)
  {
    hide TableOk, CleanRow, KernelOk, KeyOk, InterfacePrintable, ApplyStep, AfterRead, D.Step, D.Generated, CleanOp,
         Broken, Reconcile.Imported;
    match e {
      case Device(op) =>
        D.StepKeeps(w.table, op);
        StepClean(w.table, op);
      case ApplyNow(server, readOk, syncOk, now) =>
        ApplyLeavesReady(w, server, iface, readOk, syncOk, now);
      case ReconcileNow(serverId, readOk, now) =>
        ReconcileReads(w, iface, serverId, readOk, now);
        AfterReadExact(w, serverId, iface, readOk, now);
        CleanAdditionClean(w.table.rows, AfterRead(w, serverId, iface, readOk, now).rows, serverId);
      case Outside(up, live) =>
    }
  }

  /** Every state of every run is one the results on applying speak of. */
  lemma {:induction false} RunsStayReady(iface: WgInterface, events: seq<Event>)
    requires InterfacePrintable(iface) && PossibleRun(iface, events)
    ensures WorldOk(RunOf(iface, events), iface) && CleanRows(RunOf(iface, events).table.rows)
    decreases |events|
  {
    hide After, Possible, WorldOk, CleanRow, InterfacePrintable;
    if events == [] {
      StartReady(iface);
    } else {
      var init := events[..|events| - 1];
      assert forall k :: 0 <= k < |init| ==> init[..k] == events[..k] && init[k] == events[k];
      assert events[..|events| - 1] == init;
      RunsStayReady(iface, init);
      EventKeeps(RunOf(iface, init), iface, events[|events| - 1]);
    }
  }

  lemma StartReady(iface: WgInterface)
    requires InterfacePrintable(iface)
    ensures WorldOk(START_WORLD, iface) && CleanRows(START_WORLD.table.rows)
  {
    hide InterfacePrintable;
  }

  /**
   The non-destructive promise in every state of every run, for every live peer.
   A successful apply keeps it if and only if, when tracked, its row has an
   address, and when not, the live peers could be read and it has AllowedIPs; and
   it keeps its AllowedIPs if and only if they are what its claimant is left with.
   */
  lemma NonDestructiveInEveryRun(
      iface: WgInterface, events: seq<Event>, server: ServerRow, readOk: bool, syncOk: bool, now: int, k: nat)
    requires InterfacePrintable(iface) && PossibleRun(iface, events) && KeyOk(server.privateKey)
    requires var w := RunOf(iface, events);
             ApplyStep(w, server, iface, readOk, syncOk, now).ok && k < |w.live|
    ensures var w := RunOf(iface, events);
            var p := w.live[k];
            var live := ApplyStep(w, server, iface, readOk, syncOk, now).world.live;
            var left := Remaining(w, server.id, readOk, p.publicKey, ClaimantOf(w, server.id, p));
            && (IsLive(live, p.publicKey) <==>
                  if Tracks(w.table.rows, server.id, p.publicKey) then IsRendered(w.table.rows, server.id, p.publicKey)
                  else readOk && p.allowedIps != "(none)")
            && (forall j :: 0 <= j < |live| && live[j].publicKey == p.publicKey ==>
                  && live[j].allowedIps == IpsText(left)
                  && (live[j].allowedIps == p.allowedIps <==> left == ShownEntries(p.allowedIps)))
  {
    hide RunOf, PossibleRun, WorldOk, CleanRows, ApplyStep, Tracks, IsLive, IsRendered, Remaining, ClaimantOf, KeyOk,
         InterfacePrintable;
    RunsStayReady(iface, events);
    LivePeerSurvivesExactly(RunOf(iface, events), server, iface, readOk, syncOk, now, k);
  }

  // ---------------------------------------------------------------- a range with a free address

  const HOST: nat := 0x0A00_0005

  /** The fifth address of `10.0.0.0/24` is free as long as nothing is in use. */
  lemma HostIsFree()
    ensures ParseCidr("10.0.0.0/24").Ok? && Assignable(HOST, ParseCidr("10.0.0.0/24").value, [])
  {
    hide ParseCidr, CidrText, Quad, Bits.Double, Bits.Align;
    TenBlock();
    Bits.Pow2At32();
    RangeIsBlock(Cidr(0x0A00_0000, 24));
  }

  lemma TenBlock()
    ensures ParseCidr("10.0.0.0/24") == Ok(Cidr(0x0A00_0000, 24)) && WellFormed(Cidr(0x0A00_0000, 24))
  {
    hide ParseCidr, CidrText, Bits.Align;
    Bits.DoubleIsTimes(10, 8);
    Bits.DoubleIsTimes(2560, 8);
    Bits.DoubleIsTimes(655360, 8);
    assert Bits.Pow2(8) == 256;
    assert Quad(10, 0, 0, 0) == 0x0A00_0000 == Bits.Double(0xA_0000, 8);
    Bind.BlockParses(10, 0, 24, 0xA_0000);
    Bind.BlockText(10, 0, 24);
    TenText();
    ParsedBlock("10.0.0.0/24");
  }

  lemma TenText()
    ensures Decimal(10) + "." + (Decimal(0) + "." + ("0" + "." + "0")) + "/" + Decimal(24) == "10.0.0.0/24"
  {
    Bind.TwoDigits(10);
    Bind.TwoDigits(24);
  }

  // ---------------------------------------------------------------- runs that reach the failures

  /** A peer added by hand under the given address, with nothing else. */
  function AddPeer(name: string, address: string, keys: D.KeyPair): D.Op {
    D.Add(0, Some("10.0.0.0/24"), D.CreateInput(name, Peer, None, None, None, Some(address)), keys)
  }

  /** Adding the free host with white space behind it to the empty table stores the text as typed. */
  lemma AddedAsTyped(name: string, pad: string, keys: D.KeyPair)
    requires AllSpace(pad) && keys.publicKey != ""
    ensures D.Generated(EMPTY, AddPeer(name, IntToIp(HOST) + pad, keys))
    ensures var t := D.Step(EMPTY, AddPeer(name, IntToIp(HOST) + pad, keys));
            && |t.rows| == 1 && t.rows[0].serverId == 0 && t.rows[0].name == name && t.rows[0].kind == Peer
            && t.rows[0].tunnelAddress == Some(IntToIp(HOST) + pad) && t.rows[0].publicKey == Some(keys.publicKey)
            && t.rows[0].allowedIps == None && t.rows[0].id == 0 && t.nextId == 1 && t.rows[0].management == Managed
            && IpToIntSafe(IntToIp(HOST) + pad) == Some(HOST)
  {
    hide ParseCidr, IntToIp, IpToIntSafe, D.ChosenAddress, Assignable;
    HostIsFree();
    D.PaddingIsStored("10.0.0.0/24", HOST, pad, []);
    IntToIpShape(HOST);
    PrintParse(HOST);
    assert "" + IntToIp(HOST) + pad == IntToIp(HOST) + pad;
    PaddedIp("", IntToIp(HOST), pad);
    assert UsedCidrs(EMPTY.rows, 0) == [];
  }

  function LivePeerAt(key: string, allowedIps: string): PeerStatus {
    PeerStatus(key, None, allowedIps, 0, 0, 0, false)
  }

  /**
   Two rows of one server for one number: a peer added with white space behind
   its address, then an import of a live peer that has this very host.
   */
  lemma DuplicateNumberRun(name: string, pad: string, keys: D.KeyPair, other: string)
    requires AllSpace(pad) && pad != "" && keys.publicKey != "" && other != "" && other != keys.publicKey
    ensures var ops := [AddPeer(name, IntToIp(HOST) + pad, keys),
            D.Import(0, [LivePeerAt(other, IntToIp(HOST) + "/32")])];
            var t := D.Run(EMPTY, ops);
            && D.GeneratedRun(EMPTY, ops)
            && |t.rows| == 2 && t.rows[0].serverId == t.rows[1].serverId
            && t.rows[0].tunnelAddress.Some? && t.rows[1].tunnelAddress.Some?
            && t.rows[0].tunnelAddress != t.rows[1].tunnelAddress
            && IpToIntSafe(t.rows[0].tunnelAddress.value) == Some(HOST) == IpToIntSafe(t.rows[1].tunnelAddress.value)
  {
    hide ParseCidr, IntToIp, IpToIntSafe, D.AddDevice, D.Step, DeriveImportAddress, D.Generated;
    var add := AddPeer(name, IntToIp(HOST) + pad, keys);
    var p := LivePeerAt(other, IntToIp(HOST) + "/32");
    var import_ := D.Import(0, [p]);
    AddedAsTyped(name, pad, keys);
    var t := D.Step(EMPTY, add);
    TwoOps(add, import_);
    ImportedBeside(t, pad, p);
    PrintParse(HOST);
    assert D.Generated(t, import_) by { ImportGenerated(t, 0, [p]); }
  }

  lemma ImportGenerated(t: Table, serverId: nat, peers: seq<PeerStatus>)
    ensures D.Generated(t, D.Import(serverId, peers))
  {
  }

  lemma OneOp(a: D.Op)
    ensures D.Run(EMPTY, [a]) == D.Step(EMPTY, a)
  {
    hide D.Step;
    assert [a][..0] == [];
    assert D.Run(EMPTY, []) == EMPTY;
  }

  lemma TwoOps(a: D.Op, b: D.Op)
    ensures D.Run(EMPTY, [a, b]) == D.Step(D.Step(EMPTY, a), b)
    ensures D.Run(EMPTY, [a, b][..0]) == EMPTY && D.Run(EMPTY, [a, b][..1]) == D.Step(EMPTY, a)
  {
    hide D.Step;
    assert [a, b][..1] == [a] && [a, b][..0] == [];
    OneOp(a);
  }

  /** Importing a list of one untracked peer. */
  lemma ImportSingle(t: Table, serverId: nat, p: PeerStatus)
    requires !Skipped(t.rows, serverId, p)
    ensures D.Step(t, D.Import(serverId, [p])) ==
            match Insert(t, ImportedRow(serverId, p,
                DeriveImportAddress(p.allowedIps, UsedAddresses(t.rows, serverId))))
            case Ok(t') => t'
            case Err(_) => t
  {
    hide DeriveImportAddress, UsedAddresses, Clashes, Tracks;
    assert [p][..0] == [];
    assert ImportAll(t, serverId, []) == Ok(Import(t, 0));
    assert ImportAll(t, serverId, [p]) == ImportOne(Import(t, 0), serverId, p);
  }

  /** The import stores the canonical text next to the padded one. */
  lemma ImportedBeside(t: Table, pad: string, p: PeerStatus)
    requires |t.rows| == 1 && t.rows[0].serverId == 0 && t.rows[0].tunnelAddress == Some(IntToIp(HOST) + pad)
            && pad != ""
    requires p.publicKey != "" && t.rows[0].publicKey != Some(p.publicKey) && p.allowedIps == IntToIp(HOST) + "/32"
    ensures var after := D.Step(t, D.Import(0, [p]));
            && |after.rows| == 2 && after.rows[0] == t.rows[0]
            && after.rows[1].serverId == 0 && after.rows[1].tunnelAddress == Some(IntToIp(HOST))
  {
    hide IntToIp, DeriveImportAddress, D.Step;
    var stored := IntToIp(HOST) + pad;
    assert t.rows[..0] == [] && UsedAddresses(t.rows[..0], 0) == [];
    assert UsedAddresses(t.rows, 0) == [stored];
    assert |stored| > |IntToIp(HOST)|;
    HostDerived(p.allowedIps, [stored]);
    ImportSingle(t, 0, p);
  }

  lemma HostDerived(allowedIps: string, used: seq<string>)
    requires allowedIps == IntToIp(HOST) + "/32"
    ensures DeriveImportAddress(allowedIps, used) ==
            if IntToIp(HOST) in used then ImportAddress(None, Some(allowedIps))
            else ImportAddress(Some(IntToIp(HOST)), None)
  {
    hide IntToIp, Split, Trim, HostText;
    HostPrinted(HOST);
    PrintedIsOne(allowedIps);
    assert ShownEntries(allowedIps) == [allowedIps] by { ListedAlone(allowedIps); }
    KernelIpsRead(allowedIps);
    EntriesPrinted(allowedIps);
    HostParts();
  }

  lemma ListedAlone(entry: string)
    requires Printed(entry)
    ensures ShownEntries(entry) == [entry] && entry != "(none)"
  {
    hide EntryOk, Normal;
    NoneIsNoEntry();
    SplitHead(entry, ',');
  }

  lemma HostParts()
    ensures Split(IntToIp(HOST) + "/32", '/') == [IntToIp(HOST), "32"] && HostText(IntToIp(HOST))
  {
    hide IntToIp, OctetTexts;
    PrintParse(HOST);
    HostCidrParses(IntToIp(HOST), HOST);
    OctetTextsFree(HOST);
    OctetTextsDigits(HOST);
    OctetTextsShort(HOST);
  }

  lemma OctetTextsShort(n: nat)
    ensures forall i :: 0 <= i < 4 ==> 1 <= |OctetTexts(n)[i]| <= 3
  {
    hide Decimal, OctetAt;
    OctetTextsOf(n);
    Bind.DecimalLength(OctetAt(n, 24));
    Bind.DecimalLength(OctetAt(n, 16));
    Bind.DecimalLength(OctetAt(n, 8));
    Bind.DecimalLength(OctetAt(n, 0));
  }

  /**
   A peer added with white space behind its address, then an apply in which
   nothing else goes wrong: it succeeds exactly when `wg` skips that white space.
   */
  lemma PaddedThenApplied(name: string, pad: string, keys: D.KeyPair, server: ServerRow, iface: WgInterface,
      readOk: bool, now: int)
    requires AllSpace(pad) && KeyOk(keys.publicKey) && InterfacePrintable(iface)
    requires server.id == 0 && KeyOk(server.privateKey) && ParseCidr(server.addressRange).Ok?
    requires PortOk(ListenPort(server.listenEndpoint))
    ensures var events := [Device(AddPeer(name, IntToIp(HOST) + pad, keys))];
            && PossibleRun(iface, events)
            && (ApplyStep(RunOf(iface, events), server, iface, readOk, true, now).ok <==> !Unfit(pad))
  {
    hide ParseCidr, IntToIp, IpToIntSafe, D.Step, ApplyStep, KeyOk, InterfacePrintable, PortOk, ListenPort, Unfit,
         After, Possible, WorldOk, CleanRow, D.Generated;
    var e := Device(AddPeer(name, IntToIp(HOST) + pad, keys));
    KeySpaceless(keys.publicKey);
    AddedAsTyped(name, pad, keys);
    OneEvent(iface, e);
    assert Possible(START_WORLD, e) by { AddPossible(name, IntToIp(HOST) + pad, keys); }
    RunsStayReady(iface, [e]);
    var w := RunOf(iface, [e]);
    DeviceEvent(iface, AddPeer(name, IntToIp(HOST) + pad, keys));
    ApplySucceedsExactly(w, server, iface, readOk, true, now);
    HostSpaceless();
    UnfitTail(IntToIp(HOST), pad);
    OnlyRowBroken(w.table.rows[0], w.table.rows, 0);
  }

  lemma OneEvent(iface: WgInterface, e: Event)
    ensures RunOf(iface, [e]) == After(START_WORLD, iface, e)
    ensures RunOf(iface, [e][..0]) == START_WORLD
  {
    hide After;
    assert [e][..0] == [];
  }

  lemma DeviceEvent(iface: WgInterface, op: D.Op)
    ensures After(START_WORLD, iface, Device(op)) == World(D.Step(EMPTY, op), false, [])
  {
    hide D.Step;
  }

  lemma AddPossible(name: string, address: string, keys: D.KeyPair)
    requires KeyOk(keys.publicKey) && D.Generated(EMPTY, AddPeer(name, address, keys))
    ensures Possible(START_WORLD, Device(AddPeer(name, address, keys)))
  {
    hide KeyOk;
  }

  lemma UnfitTail(head: string, pad: string)
    requires NoSpace(head)
    ensures Unfit(head + pad) <==> Unfit(pad)
  {
    var s := head + pad;
    if i :| 0 <= i < |pad| && IsSpace(pad[i]) && (pad[i] == '\n' || !WgSpace(pad[i])) {
      assert s[|head| + i] == pad[i];
    }
    if i :| 0 <= i < |s| && IsSpace(s[i]) && (s[i] == '\n' || !WgSpace(s[i])) {
      assert i >= |head| && pad[i - |head|] == s[i];
    }
  }

  lemma HostSpaceless()
    ensures NoSpace(IntToIp(HOST))
  {
    hide IntToIp;
    IntToIpShape(HOST);
    DigitsAreNoSpace();
  }

  lemma OnlyRowBroken(row: DeviceRow, rows: seq<DeviceRow>, serverId: nat)
    requires rows == [row] && row.serverId == serverId && row.kind == Peer && Truthy(row.publicKey)
    requires Truthy(row.tunnelAddress) && row.allowedIps == None
    ensures AnyBroken(rows, serverId) <==> Unfit(row.tunnelAddress.value)
  {
    hide Unfit;
    if Unfit(row.tunnelAddress.value) {
      assert row in rows && Broken(row, serverId);
    }
  }

  /** Concretely: a newline or a no-break space typed behind the address makes the apply fail, a blank does not. */
  lemma NewlineFailsApply(name: string, keys: D.KeyPair, server: ServerRow, iface: WgInterface, readOk: bool, now: int)
    requires KeyOk(keys.publicKey) && InterfacePrintable(iface)
    requires server.id == 0 && KeyOk(server.privateKey) && ParseCidr(server.addressRange).Ok?
    requires PortOk(ListenPort(server.listenEndpoint))
    ensures forall pad :: pad in ["\n", "\U{00A0}", " "] ==>
              var w := RunOf(iface, [Device(AddPeer(name, IntToIp(HOST) + pad, keys))]);
              ApplyStep(w, server, iface, readOk, true, now).ok <==> pad == " "
  {
    hide ParseCidr, IntToIp, ApplyStep, KeyOk, InterfacePrintable, PortOk, ListenPort, RunOf, AddPeer, Unfit,
         AllSpace;
    Pads();
    PaddedThenApplied(name, "\n", keys, server, iface, readOk, now);
    PaddedThenApplied(name, "\U{00A0}", keys, server, iface, readOk, now);
    PaddedThenApplied(name, " ", keys, server, iface, readOk, now);
  }

  lemma Pads()
    ensures AllSpace("\n") && Unfit("\n") && AllSpace("\U{00A0}") && Unfit("\U{00A0}")
    ensures AllSpace(" ") && !Unfit(" ") && "\n" != " " && "\U{00A0}" != " "
  {
    assert "\n"[0] == '\n' && "\U{00A0}"[0] == '\U{00A0}' && " "[0] == ' ';
  }

  const KEY := "AAAAAAAAAAAAAAAAAAAAAAAAAAAAAAAAAAAAAAAAAAA="

  /** A peer somebody set up on the server without this program. */
  function OutsidePeer(allowedIps: string): WgPeer {
    WgPeer(KEY, "(none)", "(none)", allowedIps, 0, 0, 0, "off")
  }

  lemma OutsidePeerIsKernel()
    ensures KernelOk([OutsidePeer(IntToIp(HOST) + "/32")])
    ensures IntToIp(HOST) + "/32" != "(none)" && ShownEntries(IntToIp(HOST) + "/32") == [IntToIp(HOST) + "/32"]
  {
    hide IntToIp, Printed, KeyOk, Column, EdgeColumn;
    var ips := IntToIp(HOST) + "/32";
    KeyIsKey();
    KeySpaceless(KEY);
    HostPrinted(HOST);
    ListedAlone(ips);
    PrintedSpaceless(ips);
    SpacelessIsColumn(KEY);
    SpacelessIsColumn(ips);
    FixedColumns();
  }

  lemma PrintedSpaceless(entry: string)
    requires Printed(entry)
    ensures NoSpace(entry)
  {
  }

  lemma KeyIsKey()
    ensures KeyOk(KEY)
  {
  }

  /** The concrete loss: a live peer nobody tracks, and an apply that could not read the live peers. */
  lemma UnreadApplyDropsPeer(server: ServerRow, iface: WgInterface, now: int)
    requires InterfacePrintable(iface) && KeyOk(server.privateKey) && ParseCidr(server.addressRange).Ok?
    requires PortOk(ListenPort(server.listenEndpoint))
    ensures var events := [Outside(true, [OutsidePeer(IntToIp(HOST) + "/32")])];
            && PossibleRun(iface, events)
            && ApplyStep(RunOf(iface, events), server, iface, false, true, now).ok
            && !IsLive(ApplyStep(RunOf(iface, events), server, iface, false, true, now).world.live, KEY)
  {
    hide ParseCidr, IntToIp, ApplyStep, KeyOk, InterfacePrintable, PortOk, ListenPort, WorldOk, CleanRow, KernelOk,
         IsLive;
    var peer := OutsidePeer(IntToIp(HOST) + "/32");
    var e := Outside(true, [peer]);
    OutsidePeerIsKernel();
    OneEvent(iface, e);
    RunsStayReady(iface, [e]);
    var w := RunOf(iface, [e]);
    ApplySucceedsExactly(w, server, iface, false, true, now);
    UntrackedPeerSurvivesExactly(w, server, iface, false, true, now, 0);
  }

  /** The second loss: a live peer nobody tracks and without AllowedIPs, whether or not the peers could be read. */
  lemma BarePeerDropped(server: ServerRow, iface: WgInterface, readOk: bool, now: int)
    requires InterfacePrintable(iface) && KeyOk(server.privateKey) && ParseCidr(server.addressRange).Ok?
    requires PortOk(ListenPort(server.listenEndpoint))
    ensures var events := [Outside(true, [OutsidePeer("(none)")])];
            && PossibleRun(iface, events)
            && ApplyStep(RunOf(iface, events), server, iface, readOk, true, now).ok
            && !IsLive(ApplyStep(RunOf(iface, events), server, iface, readOk, true, now).world.live, KEY)
  {
    hide ParseCidr, ApplyStep, KeyOk, InterfacePrintable, PortOk, ListenPort, WorldOk, CleanRow, KernelOk, IsLive;
    var e := Outside(true, [OutsidePeer("(none)")]);
    BarePeerIsKernel();
    OneEvent(iface, e);
    RunsStayReady(iface, [e]);
    var w := RunOf(iface, [e]);
    ApplySucceedsExactly(w, server, iface, readOk, true, now);
    UntrackedPeerSurvivesExactly(w, server, iface, readOk, true, now, 0);
  }

  lemma BarePeerIsKernel()
    ensures KernelOk([OutsidePeer("(none)")])
  {
    hide KeyOk, Column, EdgeColumn;
    KeyIsKey();
    KeySpaceless(KEY);
    SpacelessIsColumn(KEY);
    FixedColumns();
  }

  /** A peer comes up on the server, is seen by one view, and then gets other AllowedIPs there. */
  function SeenThenChanged(seen: string, seenAt: int, changed: string): seq<Event> {
    [Outside(true, [OutsidePeer(seen)]), ReconcileNow(0, true, seenAt), Outside(true, [OutsidePeer(changed)])]
  }

  /** The peer is tracked, still awaits review, and its row renders what the view saw. */
  lemma SeenThenChangedRun(iface: WgInterface, seen: string, seenAt: int, changed: string) returns (row: DeviceRow)
    requires InterfacePrintable(iface) && KernelOk([OutsidePeer(seen)]) && KernelOk([OutsidePeer(changed)])
    ensures PossibleRun(iface, SeenThenChanged(seen, seenAt, changed))
    ensures var w := RunOf(iface, SeenThenChanged(seen, seenAt, changed));
            && w.live == [OutsidePeer(changed)] && w.table.rows == [row] && row.management == NeedsReview
            && RendersPeer(row, 0, OutsidePeer(seen)) && !AnyBroken(w.table.rows, 0)
            && WorldOk(w, iface) && CleanRows(w.table.rows)
  {
    hide InterfacePrintable, KernelOk, WorldOk, CleanRow, AfterRead, Broken, RendersPeer, Reconcile.Imported, D.Step,
         ImportAll;
    var peer := OutsidePeer(seen);
    var events := SeenThenChanged(seen, seenAt, changed);
    var first := Outside(true, [peer]);
    var w := World(EMPTY, true, [peer]);
    ThreeEvents(iface, events);
    OneEvent(iface, first);
    RunsStayReady(iface, [first]);
    ReconcileReads(w, iface, 0, true, seenAt);
    AfterReadExact(w, 0, iface, true, seenAt);
    row := ImportedRowOf(w, 0, iface, seenAt, 0);
    KeySpacelessKey();
    FirstImport(StatusOf(peer, seenAt));
    assert StatusesOf([peer], seenAt) == [StatusOf(peer, seenAt)];
    StepIsImport(StatusOf(peer, seenAt));
    assert AfterRead(w, 0, iface, true, seenAt).rows == [row];
    RunsStayReady(iface, events);
    AddedUnbroken([], [row], 0);
  }

  lemma KeySpacelessKey()
    ensures KEY != ""
  {
  }

  lemma StepIsImport(p: PeerStatus)
    requires ImportAll(EMPTY, 0, [p]).Ok?
    ensures D.Step(EMPTY, D.Import(0, [p])) == ImportAll(EMPTY, 0, [p]).value.table
  {
    hide ImportAll;
  }

  lemma AddedUnbroken(before: seq<DeviceRow>, after: seq<DeviceRow>, serverId: nat)
    requires CleanAddition(before, after, serverId) && before == []
    ensures !AnyBroken(after, serverId)
  {
    hide CleanRow, Broken;
  }

  lemma ThreeEvents(iface: WgInterface, events: seq<Event>)
    requires |events| == 3
    ensures events[..0] == [] && events[..1] == [events[0]] && events[..2] == [events[0], events[1]]
    ensures RunOf(iface, events[..1]) == After(START_WORLD, iface, events[0])
    ensures RunOf(iface, events[..2]) == After(RunOf(iface, events[..1]), iface, events[1])
    ensures RunOf(iface, events) == After(RunOf(iface, events[..2]), iface, events[2])
  {
    hide After;
    OneEvent(iface, events[0]);
    assert events[..2][..1] == events[..1];
  }

  /**
   The third loss: a peer without AllowedIPs was imported by a view and gets some
   on the server. It is tracked, awaits review and could be read, and is dropped.
   */
  lemma LateIpsDropped(ips: string, seenAt: int, server: ServerRow, iface: WgInterface, readOk: bool, now: int)
    requires InterfacePrintable(iface) && KernelOk([OutsidePeer(ips)]) && server.id == 0
    requires KeyOk(server.privateKey) && ParseCidr(server.addressRange).Ok? && PortOk(ListenPort(server.listenEndpoint))
    ensures var events := SeenThenChanged("(none)", seenAt, ips);
            var w := RunOf(iface, events);
            && PossibleRun(iface, events) && w.live == [OutsidePeer(ips)]
            && |w.table.rows| == 1 && HasKey(w.table.rows[0], 0, KEY) && w.table.rows[0].management == NeedsReview
            && ApplyStep(w, server, iface, readOk, true, now).ok
            && !IsLive(ApplyStep(w, server, iface, readOk, true, now).world.live, KEY)
  {
    hide ParseCidr, ApplyStep, KeyOk, InterfacePrintable, PortOk, ListenPort, WorldOk, CleanRow, KernelOk, IsLive,
         SeenThenChanged, RunOf, PossibleRun, Rendered, Remaining, ClaimantOf, Broken;
    BarePeerIsKernel();
    var row := SeenThenChangedRun(iface, "(none)", seenAt, ips);
    var w := RunOf(iface, SeenThenChanged("(none)", seenAt, ips));
    assert HasKey(w.table.rows[0], 0, KEY);
    ApplySucceedsExactly(w, server, iface, readOk, true, now);
    LivePeerSurvivesExactly(w, server, iface, readOk, true, now, 0);
  }

  /** And what was changed outside is put back: the peer shows what the view saw, whatever it showed since. */
  lemma ChangedIpsPutBack(ips: string, seenAt: int, server: ServerRow, iface: WgInterface, readOk: bool, now: int)
    requires InterfacePrintable(iface) && KernelOk([OutsidePeer(ips)]) && server.id == 0
    requires KeyOk(server.privateKey) && ParseCidr(server.addressRange).Ok? && PortOk(ListenPort(server.listenEndpoint))
    ensures var seen := IntToIp(HOST) + "/32";
            var events := SeenThenChanged(seen, seenAt, ips);
            var w := RunOf(iface, events);
            && PossibleRun(iface, events) && w.live == [OutsidePeer(ips)]
            && |w.table.rows| == 1 && HasKey(w.table.rows[0], 0, KEY) && w.table.rows[0].management == NeedsReview
            && ApplyStep(w, server, iface, readOk, true, now).ok
            && var live := ApplyStep(w, server, iface, readOk, true, now).world.live;
            && IsLive(live, KEY)
            && forall j :: 0 <= j < |live| && live[j].publicKey == KEY ==> live[j].allowedIps == seen
  {
    hide ParseCidr, IntToIp, ApplyStep, KeyOk, InterfacePrintable, PortOk, ListenPort, WorldOk, CleanRow, KernelOk,
         IsLive, SeenThenChanged, RunOf, PossibleRun, Rendered, Remaining, Broken, Claims, RowIps, ClaimedLater,
         ShownEntries;
    var seen := IntToIp(HOST) + "/32";
    OutsidePeerIsKernel();
    var row := SeenThenChangedRun(iface, seen, seenAt, ips);
    var w := RunOf(iface, SeenThenChanged(seen, seenAt, ips));
    assert HasKey(w.table.rows[0], 0, KEY);
    ApplySucceedsExactly(w, server, iface, readOk, true, now);
    TrackedPeersAreLive(w, server, iface, readOk, true, now, row);
    SeenIsKernel(OutsidePeer(seen));
    RenderedPeerIps(row, 0, OutsidePeer(seen));
    ShownClaims(seen);
    LoneRowKeeps(w, row, readOk);
  }

  lemma SeenIsKernel(p: WgPeer)
    requires KernelOk([p])
    ensures Kernel(p)
  {
    hide Kernel;
    assert [p][0] == p;
  }

  /** With one row and one live peer of its key there is nobody to take anything. */
  lemma LoneRowKeeps(w: World, row: DeviceRow, readOk: bool)
    requires w.table.rows == [row] && HasKey(row, 0, KEY) && |w.live| == 1 && w.live[0].publicKey == KEY
    ensures forall e :: !ClaimedLater(w, 0, readOk, KEY, ClaimantRow(row), e)
  {
    hide Claims, RowIps, Rendered, TextLeq, ShownEntries;
  }

  /**
   Where AllowedIPs go: a tracked peer listed after the imported one has the same
   host, so the kernel gives the host to the tracked peer.
   */
  lemma ClashTakesAllowedIps(keys: D.KeyPair, server: ServerRow, iface: WgInterface, now: int)
    requires InterfacePrintable(iface) && KeyOk(keys.publicKey) && keys.publicKey != KEY
    requires server.id == 0 && KeyOk(server.privateKey) && ParseCidr(server.addressRange).Ok?
    requires PortOk(ListenPort(server.listenEndpoint))
    ensures var events := [Device(AddPeer("phone", IntToIp(HOST) + "", keys)),
            Outside(true, [OutsidePeer(IntToIp(HOST) + "/32")])];
            && PossibleRun(iface, events)
            && ApplyStep(RunOf(iface, events), server, iface, true, true, now).ok
            && var live := ApplyStep(RunOf(iface, events), server, iface, true, true, now).world.live;
            && IsLive(live, KEY)
            && forall j :: 0 <= j < |live| && live[j].publicKey == KEY ==> live[j].allowedIps != IntToIp(HOST) + "/32"
  {
    hide ParseCidr, IntToIp, IpToIntSafe, D.Step, ApplyStep, KeyOk, InterfacePrintable, PortOk, ListenPort, Unfit,
         Possible, WorldOk, CleanRow, KernelOk, D.Generated, IsLive, AnyTakes, AddPeer;
    var add := AddPeer("phone", IntToIp(HOST) + "", keys);
    var peer := OutsidePeer(IntToIp(HOST) + "/32");
    var events := [Device(add), Outside(true, [peer])];
    KeySpaceless(keys.publicKey);
    AddedAsTyped("phone", "", keys);
    OutsidePeerIsKernel();
    AddPossible("phone", IntToIp(HOST) + "", keys);
    TwoEvents(iface, add, true, [peer]);
    RunsStayReady(iface, events);
    var w := RunOf(iface, events);
    assert w == World(D.Step(EMPTY, add), true, [peer]);
    PhoneTakes(w.table.rows[0], w.table.rows, keys.publicKey);
    PhoneFits(w.table.rows[0], w.table.rows);
    ApplySucceedsExactly(w, server, iface, true, true, now);
    UntrackedPeerSurvivesExactly(w, server, iface, true, true, now, 0);
  }

  lemma TwoEvents(iface: WgInterface, op: D.Op, up: bool, live: seq<WgPeer>)
    requires Possible(START_WORLD, Device(op)) && KernelOk(live) && (!up ==> live == [])
    ensures PossibleRun(iface, [Device(op), Outside(up, live)])
    ensures RunOf(iface, [Device(op), Outside(up, live)]) == World(D.Step(EMPTY, op), up, live)
  {
    hide D.Step, KernelOk, D.Generated, CleanOp;
    var events := [Device(op), Outside(up, live)];
    assert events[..0] == [] && events[..1] == [Device(op)] && [Device(op)][..0] == [];
    OneEvent(iface, Device(op));
  }

  /** The tracked peer: listed after any imported one, not tracking the outside key, and claiming its host. */
  lemma PhoneTakes(row: DeviceRow, rows: seq<DeviceRow>, key: string)
    requires rows == [row] && row.serverId == 0 && row.name == "phone" && row.kind == Peer && row.allowedIps == None
    requires row.publicKey == Some(key) && key != "" && key != KEY && row.tunnelAddress == Some(IntToIp(HOST) + "")
    ensures !Tracks(rows, 0, KEY) && AnyTakes(rows, 0, OutsidePeer(IntToIp(HOST) + "/32"))
  {
    hide IntToIp, Compact, TextLeq, Claims, ShownEntries, RowIps, ImportedName;
    var ips := IntToIp(HOST) + "/32";
    IntToIpShape(HOST);
    assert IntToIp(HOST) + "" == IntToIp(HOST);
    PhoneClaims(row);
    PhoneIsLater();
    assert ips in Claims(RowIps(row)) && ips in ShownEntries(ips);
    assert row in rows && TakesFrom(row, 0, OutsidePeer(ips));
  }

  lemma PhoneClaims(row: DeviceRow)
    requires row.tunnelAddress == Some(IntToIp(HOST)) && row.allowedIps == None
    ensures var ips := IntToIp(HOST) + "/32"; Claims(RowIps(row)) == [ips] == ShownEntries(ips)
  {
    hide IntToIp, Printed, Compact, Claims, ShownEntries;
    var ips := IntToIp(HOST) + "/32";
    HostPrinted(HOST);
    PrintedIsOne(ips);
    ListedAlone(ips);
    PrintedSpaceless(ips);
    SpacelessCompact(ips);
  }

  lemma PhoneIsLater()
    ensures !TextLeq("phone", ImportedName(KEY))
  {
    assert ImportedName(KEY)[0] == 'i' && "phone"[0] == 'p';
  }

  lemma PhoneFits(row: DeviceRow, rows: seq<DeviceRow>)
    requires rows == [row] && row.tunnelAddress == Some(IntToIp(HOST) + "")
    ensures !AnyBroken(rows, 0)
  {
    hide IntToIp;
    IntToIpShape(HOST);
    DigitsAreNoSpace();
    SpacelessFits(IntToIp(HOST) + "");
  }

  lemma FirstImport(p: PeerStatus)
    requires p.publicKey != ""
    ensures var t := D.Step(EMPTY, D.Import(0, [p]));
            |t.rows| == 1 && t.rows[0].id == 0 && t.rows[0].management == NeedsReview && t.refs == EMPTY.refs
  {
    hide DeriveImportAddress, D.Step, UsedAddresses;
    ImportSingle(EMPTY, 0, p);
  }

  /** The concrete half adoption: an imported peer, adopted into a segment that does not exist. */
  lemma HalfAdoptionRun(key: string, name: string, segment: string)
    requires key != ""
    ensures var t := D.Run(EMPTY, [D.Import(0, [LivePeerAt(key, "(none)")])]);
            var e := D.AdoptDevice(t, 0, name, Some(Some(segment)));
            && e.error == Some(D.Database(ForeignKeyViolation))
            && |e.table.rows| == 1 && t.rows[0].management == NeedsReview
            && e.table.rows[0] == D.AdoptedRow(t.rows[0], name)
  {
    hide DeriveImportAddress, TableOk, D.Step, D.AdoptDevice, ImportAll;
    var p := LivePeerAt(key, "(none)");
    var op := D.Import(0, [p]);
    OneOp(op);
    var t := D.Run(EMPTY, [op]);
    D.EmptyTable();
    D.StepKeeps(EMPTY, op);
    FirstImport(p);
    assert Find(t.rows, 0) == Some(0);
    D.HalfAdoptedExactly(t, 0, name, Some(Some(segment)));
  }

  // ---------------------------------------------------------------- adopting a peer whose host is taken

  /** Another managed peer of the server claims an entry that the device claims too. */
  ghost predicate ClashesWithManaged(rows: seq<DeviceRow>, row: DeviceRow) {
    exists other :: other in rows && ManagedBeside(other, row) && SharesEntry(other, row)
  }

  predicate ManagedBeside(other: DeviceRow, row: DeviceRow) {
    other.id != row.id && other.serverId == row.serverId && other.management == Managed && Rendered(other)
  }

  predicate SharesEntry(a: DeviceRow, b: DeviceRow) {
    exists e :: e in Claims(RowIps(a)) && e in Claims(RowIps(b))
  }

  /**
   A device that clashes with a managed peer is adopted exactly when any other
   would be, and still clashes then: `adopt` compares stored addresses only, and
   the import stores a host that is taken among the AllowedIPs.
   */
  lemma ClashDoesNotStopAdoption(t: Table, id: nat, name: string, segmentId: Option<Option<string>>)
    requires TableOk(t) && Find(t.rows, id).Some?
    requires ClashesWithManaged(t.rows, t.rows[Find(t.rows, id).value])
    ensures var e := D.AdoptDevice(t, id, name, segmentId);
            var i := Find(t.rows, id).value;
            && (e.error.None? <==>
                  && t.rows[i].management == NeedsReview
                  && (segmentId.Some? ==> SegmentKnown(segmentId.value, t.refs)))
            && (e.error.None? ==>
                  && |e.table.rows| == |t.rows| && e.table.rows[i].management == Managed
                  && ClashesWithManaged(e.table.rows, e.table.rows[i]))
  {
    hide D.AdoptDevice, TableOk, Claims, RowIps, Rendered, SegmentKnown;
    D.AdoptExact(t, id, name, segmentId);
    var e := D.AdoptDevice(t, id, name, segmentId);
    if e.error.None? {
      var i := Find(t.rows, id).value;
      var row, adopted := t.rows[i], e.table.rows[i];
      var other :| other in t.rows && ManagedBeside(other, row) && SharesEntry(other, row);
      SameClaims(row, adopted);
      var j :| 0 <= j < |t.rows| && t.rows[j] == other;
      assert e.table.rows[j] == other && ManagedBeside(other, adopted);
    }
  }

  lemma SameClaims(a: DeviceRow, b: DeviceRow)
    requires a.tunnelAddress == b.tunnelAddress && a.allowedIps == b.allowedIps
    ensures RowIps(a) == RowIps(b)
  {
    hide Compact;
  }

  /** Two managed peers with one host: a peer is added, a live peer with its host imported and adopted. */
  lemma AdoptClashRun(name: string, keys: D.KeyPair, other: string, adopted: string)
    requires keys.publicKey != "" && other != "" && other != keys.publicKey
    ensures var ops := [AddPeer(name, IntToIp(HOST) + "", keys),
            D.Import(0, [LivePeerAt(other, IntToIp(HOST) + "/32")])];
            var t := D.Run(EMPTY, ops);
            var e := D.AdoptDevice(t, 1, adopted, None);
            && D.GeneratedRun(EMPTY, ops) && |t.rows| == 2
            && ClashesWithManaged(t.rows, t.rows[1])
            && e.error == None && |e.table.rows| == 2
            && e.table.rows[0].management == Managed == e.table.rows[1].management
            && e.table.rows[0].tunnelAddress == Some(IntToIp(HOST))
            && e.table.rows[1].allowedIps == Some(IntToIp(HOST) + "/32")
  {
    hide IntToIp, IpToIntSafe, D.AddDevice, D.Step, D.Generated, D.AdoptDevice, TableOk, Claims, RowIps, Compact;
    var ips := IntToIp(HOST) + "/32";
    var add := AddPeer(name, IntToIp(HOST) + "", keys);
    var p := LivePeerAt(other, ips);
    var import_ := D.Import(0, [p]);
    AddedAsTyped(name, "", keys);
    assert IntToIp(HOST) + "" == IntToIp(HOST);
    var t := D.Step(EMPTY, add);
    TwoOps(add, import_);
    ImportedTaken(t, p);
    assert D.Generated(t, import_) by { ImportGenerated(t, 0, [p]); }
    var after := D.Step(t, import_);
    D.EmptyTable();
    D.StepKeeps(EMPTY, add);
    D.StepKeeps(t, import_);
    TakenClash(after.rows[0], after.rows[1]);
    IntToIpShape(HOST);
    assert after.rows[0] in after.rows && Rendered(after.rows[0]);
    assert Find(after.rows, 1) == Some(1);
    ClashDoesNotStopAdoption(after, 1, adopted, None);
    D.AdoptExact(after, 1, adopted, None);
  }

  /** The host is taken, so the import stores it among the AllowedIPs. */
  lemma ImportedTaken(t: Table, p: PeerStatus)
    requires |t.rows| == 1 && t.rows[0].serverId == 0 && t.rows[0].tunnelAddress == Some(IntToIp(HOST))
    requires t.nextId == 1
    requires p.publicKey != "" && t.rows[0].publicKey != Some(p.publicKey) && p.allowedIps == IntToIp(HOST) + "/32"
    ensures var after := D.Step(t, D.Import(0, [p]));
            && |after.rows| == 2 && after.rows[0] == t.rows[0]
            && after.rows[1] == ImportedRow(0, p, ImportAddress(None, Some(p.allowedIps))).(id := 1)
  {
    hide IntToIp, DeriveImportAddress, D.Step;
    assert t.rows[..0] == [] && UsedAddresses(t.rows[..0], 0) == [];
    assert UsedAddresses(t.rows, 0) == [IntToIp(HOST)];
    HostDerived(p.allowedIps, [IntToIp(HOST)]);
    ImportSingle(t, 0, p);
  }

  lemma TakenClash(a: DeviceRow, b: DeviceRow)
    requires a.tunnelAddress == Some(IntToIp(HOST)) && a.allowedIps == None
    requires b.tunnelAddress == None && b.allowedIps == Some(IntToIp(HOST) + "/32")
    ensures SharesEntry(a, b)
  {
    hide IntToIp, Printed, Compact, Claims, ShownEntries;
    var ips := IntToIp(HOST) + "/32";
    PhoneClaims(a);
    HostPrinted(HOST);
    PrintedSpaceless(ips);
    SpacelessCompact(ips);
    assert ips in Claims(RowIps(a)) && RowIps(b) == ips;
  }
}
