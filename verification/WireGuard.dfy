/**
 The WireGuard interface as an environment: `wg show dump`, `wg syncconf` and
 `wg-quick up`. A config text that `wg` accepts replaces the live peers by those
 it lists; a text it refuses changes nothing.
 */
module WireGuard {
  import opened Wrappers
  import opened Text
  import opened Bits
  import opened Net
  import opened Sorting
  import opened Status
  import opened Profile

  // ---------------------------------------------------------------- the values `wg` accepts

  predicate IsBase64(c: char) {
    'A' <= c <= 'Z' || 'a' <= c <= 'z' || IsDigit(c) || c == '+' || c == '/'
  }

  /** A key of 32 bytes in base64. */
  predicate KeyOk(key: string) {
    |key| == 44 && key[43] == '=' && forall i :: 0 <= i < 43 ==> IsBase64(key[i])
  }

  predicate PortOk(port: int) {
    0 <= port <= 65535
  }

  /** A host text with a colon in it is left to the IPv6 parser. */
  predicate IsV6(entry: string) {
    ':' in entry
  }

  predicate MaskOk(mask: string, most: nat) {
    mask != "" && AllDigits(mask) && Value(mask) <= most
  }

  /** One entry of an AllowedIPs value: a host, with a mask or without. */
  predicate EntryOk(entry: string) {
    var parts := Split(entry, '/');
    && |parts| <= 2
    && (!IsV6(entry) ==> IpToIntSafe(parts[0]).Some? && NoSpace(parts[0]))
    && (|parts| == 2 ==> MaskOk(parts[1], if IsV6(entry) then 128 else 32))
  }

  /** An empty value lists nothing. */
  function EntriesOf(allowedIps: string): seq<string> {
    if allowedIps == "" then [] else Split(allowedIps, ',')
  }

  predicate IpsOk(allowedIps: string) {
    forall i :: 0 <= i < |EntriesOf(allowedIps)| ==> EntryOk(EntriesOf(allowedIps)[i])
  }

  predicate ValuesOk(conf: WgConfig) {
    PortOk(conf.listenPort) && KeyOk(conf.privateKey)
    && forall i :: 0 <= i < |conf.peers| ==> KeyOk(conf.peers[i].publicKey) && IpsOk(conf.peers[i].allowedIps)
  }

  // ---------------------------------------------------------------- what the kernel makes of them

  function Masked(entry: string): string {
    if '/' in entry then entry else entry + (if IsV6(entry) then "/128" else "/32")
  }

  /** An entry as the kernel prints it: with its mask and, for IPv4, without the bits behind it. */
  function Normal(entry: string): string {
    if IsV6(entry) then Masked(entry)
    else
      match NetworkCidr(Masked(entry))
      case Ok(text) => text
      case Err(_) => Masked(entry)
  }

  function NormalAll(entries: seq<string>): (r: seq<string>)
    ensures |r| == |entries| && forall i :: 0 <= i < |r| ==> r[i] == Normal(entries[i])
  {
    seq(|entries|, i requires 0 <= i < |entries| => Normal(entries[i]))
  }

  /** What an AllowedIPs value claims for its peer. */
  function Claims(allowedIps: string): seq<string> {
    NormalAll(EntriesOf(allowedIps))
  }

  /** What the AllowedIPs values of several peers claim between them. */
  function ClaimedBy(values: seq<string>): set<string> {
    set i, e | 0 <= i < |values| && e in Claims(values[i]) :: e
  }

  /** The claims left to a peer once later peers have taken theirs; a repeated claim counts once. */
  function Left(claims: seq<string>, taken: set<string>): seq<string> {
    if claims == [] then []
    else
      var init, last := claims[..|claims| - 1], claims[|claims| - 1];
      Left(init, taken) + (if last in taken || last in init then [] else [last])
  }

  function IpsText(entries: seq<string>): string {
    if entries == [] then "(none)" else Join(entries, ',')
  }

  function Values(peers: seq<ConfPeer>): (r: seq<string>)
    ensures |r| == |peers| && forall i :: 0 <= i < |r| ==> r[i] == peers[i].allowedIps
  {
    seq(|peers|, i requires 0 <= i < |peers| => peers[i].allowedIps)
  }

  /** An entry belongs to one peer: of those that claim it, the last one listed. */
  function ShownIps(values: seq<string>, i: nat): string
    requires i < |values|
  {
    IpsText(Left(Claims(values[i]), ClaimedBy(values[i + 1..])))
  }

  function LivePeers(peers: seq<ConfPeer>): (r: seq<WgPeer>)
    ensures |r| == |peers|
    ensures forall i :: 0 <= i < |peers| ==>
              r[i] == WgPeer(peers[i].publicKey, "(none)", "(none)", ShownIps(Values(peers), i), 0, 0, 0, "off")
  {
    seq(|peers|, i requires 0 <= i < |peers| =>
      WgPeer(peers[i].publicKey, "(none)", "(none)", ShownIps(Values(peers), i), 0, 0, 0, "off"))
  }

  /** The peers `wg` ends up with, or None when it refuses the text. */
  function Synced(text: string): Option<seq<WgPeer>> {
    match ReadConfig(text)
    case Some(conf) => if ValuesOk(conf) then Some(LivePeers(conf.peers)) else None
    case None => None
  }

  // ---------------------------------------------------------------- what the kernel reports

  /** An entry in the form the kernel prints. */
  predicate Printed(entry: string) {
    entry != "" && NoSpace(entry) && ',' !in entry && EntryOk(entry) && Normal(entry) == entry
  }

  predicate AllPrinted(entries: seq<string>) {
    NoRepeat(entries) && forall i :: 0 <= i < |entries| ==> Printed(entries[i])
  }

  /** The entries a live peer shows. */
  function ShownEntries(allowedIps: string): seq<string> {
    if allowedIps == "(none)" then [] else Split(allowedIps, ',')
  }

  /** A live peer as the kernel reports it. */
  predicate Kernel(p: WgPeer) {
    KeyOk(p.publicKey) && PeerPrintable(p) && AllPrinted(ShownEntries(p.allowedIps))
  }

  /** No two live peers share a key or an entry. */
  predicate KernelApart(a: WgPeer, b: WgPeer) {
    a.publicKey != b.publicKey && forall e :: e in ShownEntries(a.allowedIps) ==> e !in ShownEntries(b.allowedIps)
  }

  predicate KernelOk(live: seq<WgPeer>) {
    && (forall i :: 0 <= i < |live| ==> Kernel(live[i]))
    && (forall i, j :: 0 <= i < j < |live| ==> KernelApart(live[i], live[j]))
  }

  lemma KeySpaceless(key: string)
    requires KeyOk(key)
    ensures NoSpace(key) && key != ""
  {
    forall i | 0 <= i < |key|
      ensures !IsSpace(key[i])
    {
      assert i < 43 ==> IsBase64(key[i]);
    }
  }

  /** A canonical host with the full mask is an entry the kernel prints as it stands. */
  lemma HostPrinted(n: nat)
    requires n < TWO32
    ensures Printed(IntToIp(n) + "/32") && !IsV6(IntToIp(n) + "/32")
  {
    hide IntToIp, IpToIntSafe, ParseCidr;
    var entry := IntToIp(n) + "/32";
    IntToIpShape(n);
    DigitsAreNoSpace();
    PrintParse(n);
    HostCidrParses(IntToIp(n), n);
    ThirtyTwo();
    assert CidrText(n, 32) == entry;
  }

  lemma ThirtyTwo()
    ensures Decimal(32) == "32" && MaskOk("32", 32)
  {
    assert Decimal(32) == "32";
    ValueDecimal(32);
  }

  // ---------------------------------------------------------------- what is left of a list

  lemma {:induction false} LeftExact(claims: seq<string>, taken: set<string>)
    ensures forall e :: e in Left(claims, taken) <==> e in claims && e !in taken
    ensures NoRepeat(Left(claims, taken))
  {
    if claims != [] {
      var init, last := claims[..|claims| - 1], claims[|claims| - 1];
      LeftExact(init, taken);
      assert claims == init + [last];
    }
  }

  /** A list keeps all its entries exactly when nobody takes one. */
  lemma {:induction false} LeftAll(claims: seq<string>, taken: set<string>)
    requires NoRepeat(claims)
    ensures Left(claims, taken) == claims <==> forall e :: e in claims ==> e !in taken
  {
    if forall e :: e in claims ==> e !in taken {
      LeftUntaken(claims, taken);
    } else {
      LeftExact(claims, taken);
    }
  }

  lemma {:induction false} LeftUntaken(claims: seq<string>, taken: set<string>)
    requires NoRepeat(claims) && forall e :: e in claims ==> e !in taken
    ensures Left(claims, taken) == claims
  {
    if claims != [] {
      var init, last := claims[..|claims| - 1], claims[|claims| - 1];
      assert claims == init + [last];
      LeftUntaken(init, taken);
      assert last !in init;
    }
  }

  /** The text a list of printed entries makes, and reading it back. */
  lemma IpsTextReads(entries: seq<string>)
    requires AllPrinted(entries)
    ensures ShownEntries(IpsText(entries)) == entries
    ensures NoSpace(IpsText(entries)) && IpsText(entries) != ""
    ensures IpsText(entries) == "(none)" <==> entries == []
  {
    hide EntryOk, Normal, Join, Split;
    if entries != [] {
      SplitJoin(entries, ',');
      JoinPrinted(entries);
      NoneIsNoEntry();
      assert Printed(entries[0]);
      if IpsText(entries) == "(none)" {
        SplitHead("(none)", ',');
      }
    }
  }

  lemma NoneIsNoEntry()
    ensures !EntryOk("(none)") && ',' !in "(none)" && NoSpace("(none)")
  {
    hide IpToIntSafe;
    SplitHead("(none)", '/');
    NoAddress("(none)", 0);
  }

  lemma NoAddress(s: string, i: nat)
    requires i < |s| && !IsDigit(s[i]) && s[i] != '.' && !IsSpace(s[i])
    ensures IpToIntSafe(s) == None
  {
    hide IpToIntSafe;
    if IpToIntSafe(s).Some? {
      ParsedAddressChars(s);
    }
  }

  lemma {:induction false} JoinPrinted(entries: seq<string>)
    requires entries != [] && forall i :: 0 <= i < |entries| ==> NoSpace(entries[i]) && entries[i] != ""
    ensures NoSpace(Join(entries, ',')) && Join(entries, ',') != ""
  {
    if |entries| > 1 {
      JoinPrinted(entries[1..]);
    }
  }

  /** What the kernel shows reads back as what it shows: the list claims just its own entries. */
  lemma ShownClaims(allowedIps: string)
    requires AllPrinted(ShownEntries(allowedIps)) && allowedIps != "(none)"
    ensures Claims(allowedIps) == ShownEntries(allowedIps)
    ensures IpsText(ShownEntries(allowedIps)) == allowedIps && allowedIps != ""
    ensures NoSpace(allowedIps) && IpsOk(allowedIps)
  {
    hide EntryOk, Normal;
    var entries := Split(allowedIps, ',');
    JoinSplit(allowedIps, ',');
    assert Printed(entries[0]);
    JoinPrinted(entries);
    assert NormalAll(entries) == entries;
  }

  // ---------------------------------------------------------------- the interface

  class WgHost {
    const iface: WgInterface
    var up: bool
    var peers: seq<WgPeer>

    constructor (iface: WgInterface)
      ensures this.iface == iface && !up && peers == []
    {
      this.iface := iface;
      up, peers := false, [];
    }

    /** `wg show <iface> dump`; None when the interface does not exist. */
    method ShowDump() returns (text: Option<string>)
      ensures text == if up then Some(PrintDump(iface, peers)) else None
    {
      hide PrintDump;
      text := if up then Some(PrintDump(iface, peers)) else None;
    }

    /** `wg syncconf`, or `wg-quick up` when the interface is down: both read the stripped text. */
    method Load(text: string) returns (ok: bool)
      modifies this
      ensures match Synced(text)
              case Some(live) => ok && up && peers == live
              case None => !ok && up == old(up) && peers == old(peers)
    {
      match Synced(text)
      case Some(live) =>
        up, peers := true, live;
        ok := true;
      case None => ok := false;
    }
  }
}
