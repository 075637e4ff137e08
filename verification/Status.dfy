/**
 Reading `wg show <iface> dump` (backend/src/servers/status.ts): a line for the
 interface, then a line of eight tab-separated columns for each peer.
 */
module Status {
  import opened Wrappers
  import opened Text

  datatype PeerStatus = PeerStatus(
    publicKey: string,
    endpoint: Option<string>,
    allowedIps: string,
    latestHandshake: int,
    rxBytes: int,
    txBytes: int,
    connected: bool)

  const HANDSHAKE_FRESH_SECONDS := 180

  /** `Number.parseInt(column, 10) || 0`. */
  function Count(column: string): int {
    match ParseInt(column)
    case Some(n) => n
    case None => 0
  }

  predicate Fresh(handshake: int, now: int) {
    handshake > 0 && now - handshake < HANDSHAKE_FRESH_SECONDS
  }

  /** One peer line; a line with fewer than eight columns is skipped. `now` is in seconds. */
  function PeerLine(line: string, now: int): seq<PeerStatus> {
    var cols := Split(line, '\t');
    if |cols| < 8 then []
    else
      [PeerStatus(cols[0], if cols[2] == "(none)" then None else Some(cols[2]), cols[3],
                  Count(cols[4]), Count(cols[5]), Count(cols[6]), Fresh(Count(cols[4]), now))]
  }

  function PeerLines(lines: seq<string>, now: int): seq<PeerStatus> {
    if lines == [] then []
    else PeerLines(lines[..|lines| - 1], now) + PeerLine(lines[|lines| - 1], now)
  }

  function ParseWgDump(dump: string, now: int): seq<PeerStatus> {
    var lines := NonBlank(Split(Trim(dump), '\n'));
    if lines == [] then [] else PeerLines(lines[1..], now)
  }

  /** The source's loop, from line 1 on. */
  method ReadWgDump(dump: string, now: int) returns (peers: seq<PeerStatus>)
    ensures peers == ParseWgDump(dump, now)
  {
    hide Split, Trim, ParseInt;
    var lines := NonBlank(Split(Trim(dump), '\n'));
    peers := [];
    var i := 1;
    while i < |lines|
      invariant 1 <= i
      invariant lines != [] ==> i <= |lines| && peers == PeerLines(lines[1..][..i - 1], now)
      invariant lines == [] ==> peers == []
    {
      assert lines[1..][..i][..i - 1] == lines[1..][..i - 1];
      peers := peers + PeerLine(lines[i], now);
      i := i + 1;
    }
    assert lines != [] ==> lines[1..][..|lines| - 1] == lines[1..];
  }

  // ---------------------------------------------------------------- the printer being read

  /** A live peer, as the kernel holds it. */
  datatype WgPeer = WgPeer(
    publicKey: string,
    presharedKey: string,
    endpoint: string,
    allowedIps: string,
    handshake: nat,
    rxBytes: nat,
    txBytes: nat,
    keepalive: string)

  datatype WgInterface = WgInterface(privateKey: string, publicKey: string, port: string, fwmark: string)

  function PeerColumns(p: WgPeer): seq<string> {
    [p.publicKey, p.presharedKey, p.endpoint, p.allowedIps,
     Decimal(p.handshake), Decimal(p.rxBytes), Decimal(p.txBytes), p.keepalive]
  }

  function DumpLines(iface: WgInterface, peers: seq<WgPeer>): seq<string> {
    if peers == [] then [Join([iface.privateKey, iface.publicKey, iface.port, iface.fwmark], '\t')]
    else DumpLines(iface, peers[..|peers| - 1]) + [Join(PeerColumns(peers[|peers| - 1]), '\t')]
  }

  /** `wg show <iface> dump`: every line ends in a newline. */
  function PrintDump(iface: WgInterface, peers: seq<WgPeer>): string {
    Join(DumpLines(iface, peers), '\n') + "\n"
  }

  predicate Column(s: string) {
    '\t' !in s && '\n' !in s
  }

  /** A column that stands at the edge of the dump. */
  predicate EdgeColumn(s: string) {
    Column(s) && s != "" && Solid(s)
  }

  predicate PeerPrintable(p: WgPeer) {
    Column(p.publicKey) && Column(p.presharedKey) && Column(p.endpoint) && Column(p.allowedIps)
        && EdgeColumn(p.keepalive)
  }

  predicate InterfacePrintable(i: WgInterface) {
    EdgeColumn(i.privateKey) && Column(i.publicKey) && Column(i.port) && EdgeColumn(i.fwmark)
  }

  function StatusOf(p: WgPeer, now: int): PeerStatus {
    PeerStatus(p.publicKey, if p.endpoint == "(none)" then None else Some(p.endpoint), p.allowedIps,
               p.handshake, p.rxBytes, p.txBytes, Fresh(p.handshake, now))
  }

  /** What a live peer is reported as. */
  predicate Reports(s: PeerStatus, p: WgPeer, now: int) {
    && s.publicKey == p.publicKey && s.allowedIps == p.allowedIps
    && (if p.endpoint == "(none)" then s.endpoint == None else s.endpoint == Some(p.endpoint))
    && s.latestHandshake == p.handshake && s.rxBytes == p.rxBytes && s.txBytes == p.txBytes
    && (s.connected <==> p.handshake > 0 && now < p.handshake + 3 * 60)
  }

  function StatusesOf(peers: seq<WgPeer>, now: int): (r: seq<PeerStatus>)
    ensures |r| == |peers| && forall i :: 0 <= i < |peers| ==> r[i] == StatusOf(peers[i], now)
  {
    if peers == [] then []
    else StatusesOf(peers[..|peers| - 1], now) + [StatusOf(peers[|peers| - 1], now)]
  }

  lemma PeerColumnsClean(p: WgPeer)
    requires PeerPrintable(p)
    ensures |PeerColumns(p)| == 8
    ensures forall i :: 0 <= i < 8 ==> Column(PeerColumns(p)[i])
  {
    hide Decimal;
    DecimalDigits(p.handshake);
    DecimalDigits(p.rxBytes);
    DecimalDigits(p.txBytes);
  }

  lemma PeerLineInverse(p: WgPeer, now: int)
    requires PeerPrintable(p)
    ensures PeerLine(Join(PeerColumns(p), '\t'), now) == [StatusOf(p, now)]
  {
    hide Join, Split, ParseInt, Decimal;
    PeerColumnsClean(p);
    SplitJoin(PeerColumns(p), '\t');
    ParseIntText(p.handshake);
    ParseIntText(p.rxBytes);
    ParseIntText(p.txBytes);
  }

  /** Where a joined text starts and ends, and that it holds no foreign character. */
  lemma {:induction false} JoinEdges(parts: seq<string>, sep: char)
    requires parts != []
    ensures parts[0] != "" ==> Join(parts, sep) != "" && Join(parts, sep)[0] == parts[0][0]
    ensures var last := parts[|parts| - 1];
            last != "" ==> Join(parts, sep) != "" && Join(parts, sep)[|Join(parts, sep)| - 1] == last[|last| - 1]
    ensures |parts| > 1 ==> Join(parts, sep) != ""
    ensures forall c :: c != sep && (forall i :: 0 <= i < |parts| ==> c !in parts[i]) ==> c !in Join(parts, sep)
  {
    if |parts| > 1 {
      JoinEdges(parts[1..], sep);
      assert parts[1..][|parts| - 2] == parts[|parts| - 1];
    }
  }

  lemma {:induction false} DumpLinesShape(iface: WgInterface, peers: seq<WgPeer>, now: int)
    requires InterfacePrintable(iface) && forall i :: 0 <= i < |peers| ==> PeerPrintable(peers[i])
    ensures var lines := DumpLines(iface, peers);
            && |lines| == |peers| + 1
            && Free(lines, '\n')
            && (forall i :: 0 <= i < |lines| ==> lines[i] != "")
            && !IsSpace(lines[0][0])
            && !IsSpace(lines[|lines| - 1][|lines[|lines| - 1]| - 1])
            && PeerLines(lines[1..], now) == StatusesOf(peers, now)
  {
    hide Join, IsSpace, PeerColumns, PeerLine, StatusOf, Column;
    if peers == [] {
      InterfaceLineShape(iface);
    } else {
      var last := peers[|peers| - 1];
      DumpLinesShape(iface, peers[..|peers| - 1], now);
      PeerLineShape(last);
      PeerLineInverse(last, now);
      var before, lines := DumpLines(iface, peers[..|peers| - 1]), DumpLines(iface, peers);
      assert lines[1..] == before[1..] + [Join(PeerColumns(last), '\t')];
      assert lines[1..][..|peers| - 1] == before[1..];
    }
  }

  lemma InterfaceLineShape(iface: WgInterface)
    requires InterfacePrintable(iface)
    ensures var line := Join([iface.privateKey, iface.publicKey, iface.port, iface.fwmark], '\t');
            '\n' !in line && line != "" && !IsSpace(line[0]) && !IsSpace(line[|line| - 1])
  {
    hide Join, IsSpace;
    JoinEdges([iface.privateKey, iface.publicKey, iface.port, iface.fwmark], '\t');
  }

  lemma PeerLineShape(p: WgPeer)
    requires PeerPrintable(p)
    ensures var line := Join(PeerColumns(p), '\t');
            '\n' !in line && line != "" && !IsSpace(line[|line| - 1])
  {
    hide Join, Decimal, IsSpace;
    PeerColumnsClean(p);
    JoinEdges(PeerColumns(p), '\t');
  }

  /** The parser inverts the printer when no column holds a tab or a newline. */
  lemma DumpRoundTrip(iface: WgInterface, peers: seq<WgPeer>, now: int)
    requires InterfacePrintable(iface) && forall i :: 0 <= i < |peers| ==> PeerPrintable(peers[i])
    ensures ParseWgDump(PrintDump(iface, peers), now) == StatusesOf(peers, now)
    ensures forall i :: 0 <= i < |peers| ==> Reports(StatusesOf(peers, now)[i], peers[i], now)
  {
    hide Join, Split, Trim, IsSpace, PeerLines, DumpLines;
    var lines := DumpLines(iface, peers);
    DumpLinesShape(iface, peers, now);
    JoinEdges(lines, '\n');
    var body := Join(lines, '\n');
    assert AllSpace("\n") by { NewlineIsSpace(); }
    TrimPadded("", body, "\n");
    assert "" + body + "\n" == PrintDump(iface, peers);
    SplitJoin(lines, '\n');
    NonBlankKeeps(lines);
  }

  lemma NewlineIsSpace()
    ensures IsSpace('\n') && IsSpace('\t')
  {
  }
}
