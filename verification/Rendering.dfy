/**
 What is rendered for a server, in which order, and when `wg` accepts it: the
 facts about rows and texts that the results on applying rest on.
 */
module Rendering {
  import opened Wrappers
  import opened Text
  import opened Sorting
  import opened Net
  import opened DeviceStore
  import opened ServerStore
  import opened Status
  import opened PeerImport
  import opened Profile
  import opened WireGuard
  import opened Apply

  // ---------------------------------------------------------------- the rendered rows

  lemma {:induction false} OfServerMember(rows: seq<DeviceRow>, serverId: nat, row: DeviceRow)
    ensures row in OfServer(rows, serverId) <==> row in rows && row.serverId == serverId
  {
    if rows != [] {
      OfServerMember(rows[..|rows| - 1], serverId, row);
      assert rows == rows[..|rows| - 1] + [rows[|rows| - 1]];
    }
  }

  predicate Ascending(rows: seq<DeviceRow>) {
    forall i, j :: 0 <= i < j < |rows| ==> rows[i].id < rows[j].id
  }

  lemma {:induction false} OfServerAscends(rows: seq<DeviceRow>, serverId: nat)
    requires Ascending(rows)
    ensures Ascending(OfServer(rows, serverId))
  {
    if rows != [] {
      var init, last := rows[..|rows| - 1], rows[|rows| - 1];
      OfServerAscends(init, serverId);
      var own := OfServer(init, serverId);
      forall i | 0 <= i < |own|
        ensures own[i].id < last.id
      {
        OfServerMember(init, serverId, own[i]);
        var k :| 0 <= k < |init| && init[k] == own[i];
        assert rows[k] == own[i];
      }
    }
  }

  lemma {:induction false} RenderedOfMember(rows: seq<DeviceRow>, row: DeviceRow)
    ensures row in RenderedOf(rows) <==> row in rows && Rendered(row)
  {
    hide Rendered;
    if rows != [] {
      RenderedOfMember(rows[..|rows| - 1], row);
      assert rows == rows[..|rows| - 1] + [rows[|rows| - 1]];
    }
  }

  lemma {:induction false} RenderedOfOrdered(rows: seq<DeviceRow>)
    requires Ordered(rows, DeviceName, DeviceId)
    ensures Ordered(RenderedOf(rows), DeviceName, DeviceId)
  {
    hide Rendered, InOrder;
    if rows != [] {
      var init, last := rows[..|rows| - 1], rows[|rows| - 1];
      RenderedOfOrdered(init);
      forall i | 0 <= i < |RenderedOf(init)|
        ensures InOrder(RenderedOf(init)[i], last, DeviceName, DeviceId)
      {
        RenderedOfMember(init, RenderedOf(init)[i]);
        var k :| 0 <= k < |init| && init[k] == RenderedOf(init)[i];
        assert rows[k] == init[k];
      }
    }
  }

  /** A config lists the server's rows that have a key and an address, by name and then by age. */
  lemma RenderedRowsExact(t: Table, serverId: nat)
    requires TableOk(t)
    ensures forall row :: row in RenderedRows(t.rows, serverId) <==>
            row in t.rows && row.serverId == serverId && Rendered(row)
    ensures Ordered(RenderedRows(t.rows, serverId), DeviceName, DeviceId)
  {
    hide Rendered, InOrder, RowOk, RefsKnown;
    var own := OfServer(t.rows, serverId);
    OfServerAscends(t.rows, serverId);
    assert Ascending(own);
    SortOrders(own, DeviceName, DeviceId);
    RenderedOfOrdered(ListByServer(t.rows, serverId));
    forall row
      ensures row in RenderedRows(t.rows, serverId) <==> row in t.rows && row.serverId == serverId && Rendered(row)
    {
      RenderedOfMember(ListByServer(t.rows, serverId), row);
      SortMember(own, DeviceName, row);
      OfServerMember(t.rows, serverId, row);
    }
  }

  // ---------------------------------------------------------------- clean rows

  /** Keys are generated or read from `wg`, addresses validated, AllowedIPs read from `wg`. */
  predicate CleanRow(row: DeviceRow) {
    && (row.publicKey.Some? ==> KeyOk(row.publicKey.value))
    && (row.tunnelAddress.Some? ==> IpToIntSafe(row.tunnelAddress.value).Some?)
    && (row.allowedIps.Some? ==> row.allowedIps.value != "(none)" && AllPrinted(ShownEntries(row.allowedIps.value)))
  }

  predicate CleanRows(rows: seq<DeviceRow>) {
    forall i :: 0 <= i < |rows| ==> CleanRow(rows[i])
  }

  /** White space that `wg` does not skip: a newline ends the line, and what is not ASCII is no white space to it. */
  predicate Unfit(s: string) {
    exists i :: 0 <= i < |s| && IsSpace(s[i]) && (s[i] == '\n' || !WgSpace(s[i]))
  }

  /** A rendered host address whose stored text holds such white space. */
  predicate Broken(row: DeviceRow, serverId: nat) {
    row.serverId == serverId && Rendered(row) && row.allowedIps == None && Unfit(row.tunnelAddress.value)
  }

  /** The white space is a newline, so the address even breaks its line. */
  predicate BrokenLine(row: DeviceRow, serverId: nat) {
    Broken(row, serverId) && '\n' in row.tunnelAddress.value
  }

  ghost predicate AnyBroken(rows: seq<DeviceRow>, serverId: nat) {
    exists row :: row in rows && Broken(row, serverId)
  }

  // ---------------------------------------------------------------- an address as `wg` reads it

  lemma {:induction false} CompactSpace(s: string)
    requires forall i :: 0 <= i < |s| ==> WgSpace(s[i])
    ensures Compact(s) == ""
  {
    if s != "" {
      CompactSpace(s[1..]);
    }
  }

  lemma {:induction false} CompactJoin(parts: seq<string>, compact: seq<string>)
    requires parts != [] && |compact| == |parts| && forall i :: 0 <= i < |parts| ==> compact[i] == Compact(parts[i])
    ensures Compact(Join(parts, '.')) == Join(compact, '.')
  {
    hide Compact;
    if |parts| > 1 {
      var rest := Join(parts[1..], '.');
      CompactJoin(parts[1..], compact[1..]);
      CompactCat(parts[0] + ['.'], rest);
      CompactCat(parts[0], ['.']);
      assert Compact(['.']) == ['.'] by { CompactKeeps(['.']); }
      assert parts[0] + ['.'] + rest == Join(parts, '.');
    }
  }

  /** One part of an address: once `wg` has skipped the white space, its digits. */
  lemma CompactOctet(part: string, n: nat)
    requires Octet(part) == Some(n) && forall i :: 0 <= i < |part| && IsSpace(part[i]) ==> WgSpace(part[i])
    ensures Compact(part) == Trim(part)
  {
    hide Octet, Trim, Compact, Decimal, IsSpace, WgSpace;
    OctetExact(part, n);
    DecimalDigits(n);
    var pre, post := TrimParts(part);
    var core := Trim(part);
    assert forall i :: 0 <= i < |pre| ==> pre[i] == part[i];
    assert forall i :: 0 <= i < |post| ==> post[i] == part[|pre| + |core| + i];
    CompactSpace(pre);
    CompactSpace(post);
    SpacelessCompact(core);
    CompactCat(pre + core, post);
    CompactCat(pre, core);
  }

  lemma {:induction false} SplitPartsFrom(s: string, sep: char, c: char)
    ensures forall i :: 0 <= i < |Split(s, sep)| && c in Split(s, sep)[i] ==> c in s
  {
    if s != "" {
      SplitPartsFrom(s[1..], sep, c);
    }
  }

  /** An address text without unfit white space is to `wg` the canonical text of its number. */
  lemma CompactAddress(address: string, n: nat)
    requires IpToIntSafe(address) == Some(n) && !Unfit(address)
    ensures Compact(address) == IntToIp(n)
  {
    hide Octet, Octets, Pack, Compact, Trim, IntToIp, IsSpace, WgSpace;
    var parts := Split(address, '.');
    OctetsExact(parts, Octets(parts).value);
    forall i | 0 <= i < |parts|
      ensures Compact(parts[i]) == Trim(parts[i])
    {
      forall k | 0 <= k < |parts[i]| && IsSpace(parts[i][k])
        ensures WgSpace(parts[i][k])
      {
        SplitPartsFrom(address, '.', parts[i][k]);
        var m :| 0 <= m < |address| && address[m] == parts[i][k];
        assert !Unfit(address);
      }
      CompactOctet(parts[i], Octets(parts).value[i]);
    }
    CompactJoin(parts, TrimAll(parts));
    JoinSplit(address, '.');
    ParseIsPrintInverse(address, n);
  }

  lemma UnfitRefused(address: string)
    requires AddressChars(address) && Unfit(address) && '\n' !in address
    ensures !IpsOk(Compact(address) + "/32")
  {
    hide IpToIntSafe, Compact, IsSpace, WgSpace, Unfit, MaskOk, Split;
    var text := Compact(address) + "/32";
    AddressCharsLists(address);
    UnfitStays(address);
    SplitCat(Compact(address), "32", '/');
    assert Compact(address) + ['/'] + "32" == text;
    SplitHead(Compact(address), '/');
    SplitHead(text, ',');
    assert EntriesOf(text)[0] == text;
  }

  /** `wg` accepts a stored host, with the mask it is rendered with, unless its text is unfit. */
  lemma HostAccepted(address: string)
    requires IpToIntSafe(address).Some?
    ensures '\n' in address ==> Unfit(address)
    ensures !Unfit(address) ==>
              Compact(address + "/32") == IntToIp(IpToIntSafe(address).value) + "/32" && IpsOk(Compact(address + "/32"))
    ensures Unfit(address) && '\n' !in address ==> !IpsOk(Compact(address + "/32"))
  {
    hide IpToIntSafe, Compact, IntToIp, IsSpace, WgSpace, Unfit, MaskOk;
    ParsedAddressChars(address);
    CompactCat(address, "/32");
    assert Compact("/32") == "/32" by { MaskCompact(); }
    var text := Compact(address) + "/32";
    if !Unfit(address) {
      var n := IpToIntSafe(address).value;
      CompactAddress(address, n);
      ParseIsPrintInverse(address, n);
      HostPrinted(n);
      SplitHead(text, ',');
      assert EntriesOf(text) == [text];
    } else if '\n' !in address {
      UnfitRefused(address);
    }
    if '\n' in address {
      NewlineUnfit(address);
    }
  }

  lemma NewlineUnfit(s: string)
    requires '\n' in s
    ensures Unfit(s)
  {
    NewlineIsSpace();
    var i :| 0 <= i < |s| && s[i] == '\n';
  }

  lemma MaskCompact()
    ensures Compact("/32") == "/32"
  {
    CompactKeeps("/32");
  }

  lemma AddressCharsLists(s: string)
    requires AddressChars(s)
    ensures ':' !in Compact(s) + "/32" && ',' !in Compact(s) + "/32" && '/' !in Compact(s)
  {
  }

  lemma UnfitStays(s: string)
    requires Unfit(s) && '\n' !in s
    ensures !NoSpace(Compact(s))
  {
    var i :| 0 <= i < |s| && IsSpace(s[i]) && !WgSpace(s[i]);
    assert s[i] in Compact(s);
  }

  // ---------------------------------------------------------------- a row as `wg` reads it

  /** The AllowedIPs value rendered for a row, once `wg` has skipped its white space. */
  function RowIps(row: DeviceRow): string {
    match RenderedIps(row)
    case Some(ips) => Compact(ips)
    case None => ""
  }

  function RowsIps(rows: seq<DeviceRow>): (r: seq<string>)
    ensures |r| == |rows| && forall i :: 0 <= i < |r| ==> r[i] == RowIps(rows[i])
  {
    seq(|rows|, i requires 0 <= i < |rows| => RowIps(rows[i]))
  }

  /** A rendered clean row: `wg` reads its key and, unless its address is broken, an AllowedIPs value it accepts. */
  lemma RowAccepted(row: DeviceRow, serverId: nat)
    requires RowOk(row) && CleanRow(row) && row.serverId == serverId && Rendered(row)
    ensures KeyOk(row.publicKey.value) && Compact(row.publicKey.value) == row.publicKey.value
    ensures RowIps(row) == Compact(Allowed(PeerOf(row)))
    ensures OneLine(PeerOf(row).publicKey)
    ensures !OneLine(Allowed(PeerOf(row))) ==> BrokenLine(row, serverId)
    ensures OneLine(Allowed(PeerOf(row))) ==> (IpsOk(RowIps(row)) <==> !Broken(row, serverId))
    ensures !Broken(row, serverId) ==> AllPrinted(Claims(RowIps(row))) && Claims(RowIps(row)) != []
  {
    hide KeyOk, Compact, IpToIntSafe, IpsOk, AllPrinted, Claims, IntToIp, Unfit;
    KeySpaceless(row.publicKey.value);
    SpacelessCompact(row.publicKey.value);
    if row.allowedIps.Some? {
      ShownClaims(row.allowedIps.value);
      SpacelessCompact(row.allowedIps.value);
      SplitNotEmpty(row.allowedIps.value);
    } else {
      var address := row.tunnelAddress.value;
      HostAccepted(address);
      NewlineInMask(address);
      if !Unfit(address) {
        HostClaims(IpToIntSafe(address).value, address);
      }
    }
  }

  lemma SplitNotEmpty(allowedIps: string)
    requires allowedIps != "(none)"
    ensures ShownEntries(allowedIps) != []
  {
  }

  lemma NewlineInMask(address: string)
    ensures OneLine(address + "/32") <==> '\n' !in address
  {
    if '\n' in address {
      var i :| 0 <= i < |address| && address[i] == '\n';
      assert (address + "/32")[i] == '\n';
    }
  }

  lemma HostClaims(n: nat, address: string)
    requires IpToIntSafe(address) == Some(n)
    ensures Claims(IntToIp(n) + "/32") == [IntToIp(n) + "/32"] && AllPrinted(Claims(IntToIp(n) + "/32"))
  {
    hide IpToIntSafe, IntToIp, Printed, Normal;
    ParseIsPrintInverse(address, n);
    HostPrinted(n);
    var text := IntToIp(n) + "/32";
    PrintedIsOne(text);
  }

  lemma PrintedIsOne(entry: string)
    requires Printed(entry)
    ensures Claims(entry) == [entry] && AllPrinted([entry])
  {
    hide EntryOk, Normal;
    SplitHead(entry, ',');
    assert EntriesOf(entry) == [entry];
  }

  // ---------------------------------------------------------------- when `wg` accepts the text

  lemma AddressOneLine(range: string)
    requires ServerAddress(range).Ok?
    ensures OneLine(ServerAddress(range).value)
  {
    hide ParseCidr, IntToIp, Decimal;
    var c := ParseCidr(range).value;
    IntToIpShape((c.base + 1) % Bits.TWO32);
    DecimalDigits(c.prefix);
  }

  /** What the kernel holds once it has read the text rendered from a table. */
  function RenderedLive(t: Table, serverId: nat): seq<WgPeer> {
    LivePeers(CompactPeers(PeersOf(RenderedRows(t.rows, serverId))))
  }

  /** Why `wg` refuses what a table renders: a port out of range, or an unfit address. */
  ghost predicate WgRefuses(server: ServerRow, rows: seq<DeviceRow>) {
    !PortOk(ListenPort(server.listenEndpoint)) || AnyBroken(rows, server.id)
  }

  /**
   `wg` accepts the rendered text exactly when its port is in range and no rendered address
   holds unfit white space.
   */
  lemma SyncAccepts(server: ServerRow, t: Table, address: string)
    requires TableOk(t) && CleanRows(t.rows) && KeyOk(server.privateKey) && OneLine(address)
    ensures Synced(StripForSync(ConfigText(ConfigOf(server, t.rows, address)))) ==
            if WgRefuses(server, t.rows) then None else Some(RenderedLive(t, server.id))
  {
    hide TableOk, CleanRow, BrokenLine, ConfigOf, ConfigText, StripForSync, ReadConfig, ReadBack, ValuesOk,
         RenderedRows, RenderedLive, OneLine, Allowed, PortOk, Rendered, Unfit;
    var rr := RenderedRows(t.rows, server.id);
    if k :| 0 <= k < |rr| && !OneLine(Allowed(PeerOf(rr[k]))) {
      NewlineRefused(server, t, address, k);
    } else {
      TextReadsBack(server, t, address);
      ValuesAccepted(server, t, address);
      ReadBackLive(server, t, address);
    }
  }

  /**
   What the rendered text says to `wg` and to wg-quick, when no rendered address
   breaks its line: the port the endpoint was written with, the server's own key,
   and the server's address in its range.
   */
  lemma RenderedConfigReads(server: ServerRow, t: Table, host: string, port: int)
    requires TableOk(t) && CleanRows(t.rows) && KeyOk(server.privateKey) && ParseCidr(server.addressRange).Ok?
    requires ':' !in host && port != 0 && server.listenEndpoint == host + ":" + IntText(port)
    requires forall row :: row in t.rows ==> !BrokenLine(row, server.id)
    ensures RenderConfig(server, t.rows).Ok?
    ensures var text := RenderConfig(server, t.rows).value;
            var conf := ReadConfig(StripForSync(text));
            && conf.Some? && conf.value.listenPort == port && conf.value.privateKey == server.privateKey
            && QuickValues(Split(text, '\n'), "address") == [ServerAddress(server.addressRange).value]
            && QuickValues(Split(text, '\n'), "mtu") == ["1420"]
            && QuickValues(Split(text, '\n'), "saveconfig") == ["true"]
  {
    hide TableOk, CleanRow, BrokenLine, ConfigText, StripForSync, ReadConfig, RenderedRows, OneLine, Allowed, KeyOk,
         ParseCidr, ListenPort, Split, QuickValues, CompactPeers, IntText, Rendered, Broken, CidrText;
    var address := ServerAddress(server.addressRange).value;
    var x := ConfigOf(server, t.rows, address);
    AddressOneLine(server.addressRange);
    RowsAccepted(t, server.id);
    TextReadsBack(server, t, address);
    KeySpaceless(server.privateKey);
    SpacelessCompact(server.privateKey);
    ListenPortReads(host, port);
    RenderedOneLine(server, t, address);
    QuickReadsBack(x);
    AddressSolid(server.addressRange);
    TrimSolid(address);
    MtuText();
  }

  lemma MtuText()
    ensures Decimal(DEFAULT_MTU) == "1420"
  {
    assert Decimal(1) == "1" && Decimal(14) == "14" && Decimal(142) == "142";
  }

  lemma AddressSolid(range: string)
    requires ServerAddress(range).Ok?
    ensures Solid(ServerAddress(range).value)
  {
    hide ParseCidr, IntToIp, Decimal, IsSpace;
    var c := ParseCidr(range).value;
    IntToIpShape((c.base + 1) % Bits.TWO32);
    DigitsAreNoSpace();
    DecimalDigits(c.prefix);
  }

  lemma RenderedOneLine(server: ServerRow, t: Table, address: string)
    requires TableOk(t) && CleanRows(t.rows) && KeyOk(server.privateKey) && OneLine(address)
    requires forall row :: row in t.rows ==> !BrokenLine(row, server.id)
    ensures OneLineConfig(ConfigOf(server, t.rows, address))
  {
    hide TableOk, CleanRow, BrokenLine, Broken, RenderedRows, Rendered, KeyOk, IpsOk, ListenPort, OneLine, Allowed,
         RowIps, Compact, AllPrinted, Claims;
    RowsAccepted(t, server.id);
    KeySpaceless(server.privateKey);
    SpacelessOneLine(server.privateKey);
  }

  lemma ReadBackLive(server: ServerRow, t: Table, address: string)
    ensures LivePeers(ReadBack(ConfigOf(server, t.rows, address)).peers) == RenderedLive(t, server.id)
  {
    hide RenderedRows, LivePeers, ListenPort;
  }

  /** When no rendered address breaks its line, the text reads back. */
  lemma TextReadsBack(server: ServerRow, t: Table, address: string)
    requires TableOk(t) && CleanRows(t.rows) && KeyOk(server.privateKey) && OneLine(address)
    requires var rr := RenderedRows(t.rows, server.id); forall i :: 0 <= i < |rr| ==> OneLine(Allowed(PeerOf(rr[i])))
    ensures var x := ConfigOf(server, t.rows, address); ReadConfig(StripForSync(ConfigText(x))) == Some(ReadBack(x))
  {
    hide TableOk, CleanRow, Broken, BrokenLine, ConfigText, StripForSync, ReadConfig, RenderedRows, Rendered, KeyOk,
         IpsOk, ListenPort, OneLine, Allowed, RowIps, Compact, AllPrinted, Claims;
    var x := ConfigOf(server, t.rows, address);
    RowsAccepted(t, server.id);
    KeySpaceless(server.privateKey);
    SpacelessOneLine(x.privateKey);
    ConfigReadsBack(x);
  }

  lemma SpacelessOneLine(s: string)
    requires NoSpace(s)
    ensures OneLine(s)
  {
    NewlineIsSpace();
  }

  lemma RowsAccepted(t: Table, serverId: nat)
    requires TableOk(t) && CleanRows(t.rows)
    ensures var rr := RenderedRows(t.rows, serverId);
            forall i :: 0 <= i < |rr| ==>
              && rr[i] in t.rows && rr[i].serverId == serverId && Rendered(rr[i]) && RowOk(rr[i]) && CleanRow(rr[i])
              && rr[i].publicKey.Some?
              && KeyOk(rr[i].publicKey.value) && Compact(rr[i].publicKey.value) == rr[i].publicKey.value
              && RowIps(rr[i]) == Compact(Allowed(PeerOf(rr[i]))) && OneLine(PeerOf(rr[i]).publicKey)
              && (!OneLine(Allowed(PeerOf(rr[i]))) ==> BrokenLine(rr[i], serverId))
              && (OneLine(Allowed(PeerOf(rr[i]))) ==> (IpsOk(RowIps(rr[i])) <==> !Broken(rr[i], serverId)))
              && (!Broken(rr[i], serverId) ==> AllPrinted(Claims(RowIps(rr[i]))) && Claims(RowIps(rr[i])) != [])
  {
    hide CleanRow, Broken, BrokenLine, RenderedRows, KeyOk, IpsOk, RowIps, Compact, AllPrinted, Claims, Allowed,
         PeerOf, OneLine, RowOk, Apart, RefsKnown;
    RenderedRowsExact(t, serverId);
    var rr := RenderedRows(t.rows, serverId);
    forall i | 0 <= i < |rr|
      ensures rr[i] in t.rows && RowOk(rr[i]) && CleanRow(rr[i])
    {
      assert rr[i] in rr;
    }
    forall i | 0 <= i < |rr|
      ensures rr[i] in t.rows && rr[i].serverId == serverId && Rendered(rr[i])
      ensures KeyOk(rr[i].publicKey.value) && Compact(rr[i].publicKey.value) == rr[i].publicKey.value
      ensures RowIps(rr[i]) == Compact(Allowed(PeerOf(rr[i]))) && OneLine(PeerOf(rr[i]).publicKey)
      ensures !OneLine(Allowed(PeerOf(rr[i]))) ==> BrokenLine(rr[i], serverId)
      ensures OneLine(Allowed(PeerOf(rr[i]))) ==> (IpsOk(RowIps(rr[i])) <==> !Broken(rr[i], serverId))
      ensures !Broken(rr[i], serverId) ==> AllPrinted(Claims(RowIps(rr[i]))) && Claims(RowIps(rr[i])) != []
    {
      assert rr[i] in rr;
      RowAccepted(rr[i], serverId);
    }
  }

  lemma NewlineRefused(server: ServerRow, t: Table, address: string, k: nat)
    requires TableOk(t) && CleanRows(t.rows)
    requires k < |RenderedRows(t.rows, server.id)| && !OneLine(Allowed(PeerOf(RenderedRows(t.rows, server.id)[k])))
    ensures ReadConfig(StripForSync(ConfigText(ConfigOf(server, t.rows, address)))) == None
    ensures AnyBroken(t.rows, server.id)
  {
    hide TableOk, CleanRow, ConfigText, StripForSync, ReadConfig, RenderedRows, KeyOk, IpsOk, ListenPort, OneLine,
         Allowed, RowIps, Compact, AllPrinted, Claims, AddressChars, Unfit;
    RowsAccepted(t, server.id);
    BrokenAddressRefused(ConfigOf(server, t.rows, address), k);
  }

  /** The values of a text without broken lines. */
  lemma ValuesAccepted(server: ServerRow, t: Table, address: string)
    requires TableOk(t) && CleanRows(t.rows) && KeyOk(server.privateKey)
    requires var rr := RenderedRows(t.rows, server.id); forall i :: 0 <= i < |rr| ==> OneLine(Allowed(PeerOf(rr[i])))
    ensures ValuesOk(ReadBack(ConfigOf(server, t.rows, address))) <==> !WgRefuses(server, t.rows)
  {
    hide TableOk, CleanRow, Broken, RenderedRows, Rendered, KeyOk, IpsOk, PortOk, ListenPort, OneLine, Allowed,
         RowIps, Compact, AllPrinted, Claims;
    var conf := ReadBack(ConfigOf(server, t.rows, address));
    var rr := RenderedRows(t.rows, server.id);
    RenderedRowsExact(t, server.id);
    RowsAccepted(t, server.id);
    KeySpaceless(server.privateKey);
    SpacelessCompact(server.privateKey);
    forall i | 0 <= i < |conf.peers|
      ensures KeyOk(conf.peers[i].publicKey) && (IpsOk(conf.peers[i].allowedIps) <==> !Broken(rr[i], server.id))
    {
      assert conf.peers[i] == ConfPeer(Compact(rr[i].publicKey.value), RowIps(rr[i]));
    }
    if row :| row in t.rows && Broken(row, server.id) {
      BrokenIsRendered(row, server.id);
      var i :| 0 <= i < |rr| && rr[i] == row;
      assert !IpsOk(conf.peers[i].allowedIps);
    }
  }

  lemma BrokenIsRendered(row: DeviceRow, serverId: nat)
    requires Broken(row, serverId)
    ensures row.serverId == serverId && Rendered(row)
  {
  }

  /** The live peers after a sync, row by row. */
  lemma RenderedLiveExact(t: Table, serverId: nat)
    requires TableOk(t) && CleanRows(t.rows)
    ensures var rr := RenderedRows(t.rows, serverId);
            var live := RenderedLive(t, serverId);
            && |live| == |rr|
            && forall j :: 0 <= j < |rr| ==>
                 && rr[j].publicKey == Some(live[j].publicKey)
                 && live[j] == WgPeer(live[j].publicKey, "(none)", "(none)", ShownIps(RowsIps(rr), j), 0, 0, 0, "off")
  {
    hide TableOk, CleanRow, Broken, RenderedRows, KeyOk, IpsOk, Allowed, RowIps, Compact, AllPrinted, Claims,
         ShownIps;
    var rr := RenderedRows(t.rows, serverId);
    RowsAccepted(t, serverId);
    var conf := CompactPeers(PeersOf(rr));
    forall j | 0 <= j < |rr|
      ensures conf[j] == ConfPeer(rr[j].publicKey.value, RowIps(rr[j]))
    {
    }
    assert Values(conf) == RowsIps(rr);
  }
}
