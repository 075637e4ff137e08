/**
 Rendering the server config and stripping it for `wg syncconf`
 (backend/src/servers/profile.ts), with a reader of `wg`'s section format that
 the rendered text is proved to read back through.
 */
module Profile {
  import opened Wrappers
  import opened Text
  import opened Net

  const DEFAULT_MTU: nat := 1420

  datatype ServerPeer = ServerPeer(publicKey: string, tunnelAddress: Option<string>, allowedIps: Option<string>)

  /** `mtu` None stands for null, which omits the line as 0 does. */
  datatype ServerConfig = ServerConfig(
    privateKey: string,
    addressRange: string,
    listenPort: int,
    peers: seq<ServerPeer>,
    mtu: Option<nat>,
    saveConfig: bool)

  function Allowed(p: ServerPeer): string {
    match p.allowedIps
    case Some(a) => a
    case None => (if p.tunnelAddress.Some? then p.tunnelAddress.value else "null") + "/32"
  }

  function Field(name: string, value: string): string {
    name + " = " + value
  }

  function InterfaceLines(x: ServerConfig): seq<string> {
    ["[Interface]", Field("Address", x.addressRange)] +
    (if x.mtu.Some? && x.mtu.value != 0 then [Field("MTU", Decimal(x.mtu.value))] else []) +
    (if x.saveConfig then [Field("SaveConfig", "true")] else []) +
    NativeLines(x)
  }

  /** The interface lines that `wg` itself understands. */
  function NativeLines(x: ServerConfig): seq<string> {
    [Field("ListenPort", IntText(x.listenPort)), Field("PrivateKey", x.privateKey), ""]
  }

  function PeerBlock(p: ServerPeer): seq<string> {
    ["[Peer]", Field("PublicKey", p.publicKey), Field("AllowedIPs", Allowed(p)), ""]
  }

  function PeerBlocks(peers: seq<ServerPeer>): seq<string> {
    if peers == [] then [] else PeerBlocks(peers[..|peers| - 1]) + PeerBlock(peers[|peers| - 1])
  }

  function ConfigText(x: ServerConfig): string {
    Join(InterfaceLines(x) + PeerBlocks(x.peers), '\n')
  }

  /** The source pushes line after line, then joins. */
  method BuildServerConfig(x: ServerConfig) returns (text: string)
    ensures text == ConfigText(x)
  {
    hide Join, Decimal, IntText;
    var parts := ["[Interface]", Field("Address", x.addressRange)];
    if x.mtu.Some? && x.mtu.value != 0 {
      parts := parts + [Field("MTU", Decimal(x.mtu.value))];
    }
    if x.saveConfig {
      parts := parts + [Field("SaveConfig", "true")];
    }
    parts := parts + [Field("ListenPort", IntText(x.listenPort)), Field("PrivateKey", x.privateKey), ""];
    ghost var header := parts;
    assert header == InterfaceLines(x);
    for i := 0 to |x.peers|
      invariant parts == header + PeerBlocks(x.peers[..i])
    {
      assert x.peers[..i + 1][..i] == x.peers[..i];
      var allowed := Allowed(x.peers[i]);
      parts := parts + ["[Peer]", Field("PublicKey", x.peers[i].publicKey), Field("AllowedIPs", allowed), ""];
    }
    assert x.peers[..|x.peers|] == x.peers;
    text := Join(parts, '\n');
  }

  // ---------------------------------------------------------------- stripping

  predicate QuickOnly(key: string) {
    || key == "address" || key == "dns" || key == "mtu" || key == "table" || key == "preup" || key == "postup"
    || key == "predown" || key == "postdown" || key == "saveconfig"
  }

  function LineKey(line: string): string {
    Lower(Trim(Before(line, '=')))
  }

  predicate Native(line: string) {
    !QuickOnly(LineKey(line))
  }

  function NativeOf(lines: seq<string>): seq<string> {
    if lines == [] then []
    else NativeOf(lines[..|lines| - 1]) + (if Native(lines[|lines| - 1]) then [lines[|lines| - 1]] else [])
  }

  function StripForSync(config: string): string {
    Join(NativeOf(Split(config, '\n')), '\n')
  }

  lemma {:induction false} NativeOfCat(a: seq<string>, b: seq<string>)
    ensures NativeOf(a + b) == NativeOf(a) + NativeOf(b)
  {
    if b == [] {
      assert a + b == a;
    } else {
      var init := b[..|b| - 1];
      assert (a + b)[..|a + b| - 1] == a + init;
      NativeOfCat(a, init);
    }
  }

  lemma {:induction false} NativeOfKeeps(lines: seq<string>)
    requires forall i :: 0 <= i < |lines| ==> Native(lines[i])
    ensures NativeOf(lines) == lines
  {
    hide Native;
    if lines != [] {
      NativeOfKeeps(lines[..|lines| - 1]);
    }
  }

  /** The kept lines are native, and are exactly the native ones given. */
  lemma {:induction false} NativeOfExact(lines: seq<string>)
    ensures forall i :: 0 <= i < |NativeOf(lines)| ==> Native(NativeOf(lines)[i]) && NativeOf(lines)[i] in lines
    ensures forall i :: 0 <= i < |lines| && Native(lines[i]) ==> lines[i] in NativeOf(lines)
    ensures |NativeOf(lines)| <= |lines|
  {
    hide Native;
    if lines != [] {
      var init := lines[..|lines| - 1];
      NativeOfExact(init);
      assert forall i :: 0 <= i < |init| ==> init[i] == lines[i];
    }
  }

  lemma NativeOfFree(lines: seq<string>, sep: char)
    requires Free(lines, sep)
    ensures Free(NativeOf(lines), sep)
  {
    hide Native;
    NativeOfExact(lines);
  }

  /** The lines of a stripped text are the native lines of the text, in order. */
  lemma StrippedLines(config: string)
    ensures var kept := NativeOf(Split(config, '\n'));
            Split(StripForSync(config), '\n') == if kept == [] then [""] else kept
  {
    hide Native, Split, Join;
    SplitPartsFree(config, '\n');
    NativeOfFree(Split(config, '\n'), '\n');
    var kept := NativeOf(Split(config, '\n'));
    if kept == [] {
      SplitHead("", '\n');
      assert Join(kept, '\n') == "" by { JoinNothing('\n'); }
    } else {
      SplitJoin(kept, '\n');
    }
  }

  lemma JoinNothing(sep: char)
    ensures Join([], sep) == ""
  {
  }

  /** Stripping twice is stripping once, and no wg-quick-only line survives. */
  lemma StripIdempotent(config: string)
    ensures StripForSync(StripForSync(config)) == StripForSync(config)
    ensures forall i :: 0 <= i < |Split(StripForSync(config), '\n')| ==> Native(Split(StripForSync(config), '\n')[i])
  {
    hide Native, NativeOf, Split, Join, ReadLine;
    StrippedLines(config);
    BlankLine();
    NativeOfExact(Split(config, '\n'));
    NativeOfKeeps(Split(StripForSync(config), '\n'));
    JoinSplit(StripForSync(config), '\n');
  }

  // ---------------------------------------------------------------- the reader

  datatype ConfPeer = ConfPeer(publicKey: string, allowedIps: string)

  datatype WgConfig = WgConfig(listenPort: int, privateKey: string, peers: seq<ConfPeer>)

  datatype Section = Nowhere | InInterface | InPeer

  datatype Reading = Reading(section: Section, listenPort: Option<int>, privateKey: Option<string>,
      peers: seq<ConfPeer>)

  /** The white space of ASCII, which `wg` skips wherever it stands in a line. */
  predicate WgSpace(c: char) {
    '\U{0009}' <= c <= '\U{000D}' || c == ' '
  }

  predicate NoWgSpace(s: string) {
    forall i :: 0 <= i < |s| ==> !WgSpace(s[i])
  }

  function Compact(s: string): (r: string)
    ensures NoWgSpace(r)
    ensures forall c :: c in r <==> c in s && !WgSpace(c)
  {
    if s == "" then "" else (if WgSpace(s[0]) then "" else [s[0]]) + Compact(s[1..])
  }

  lemma {:induction false} CompactCat(a: string, b: string)
    ensures Compact(a + b) == Compact(a) + Compact(b)
  {
    if a == "" {
      assert a + b == b;
    } else {
      assert (a + b)[1..] == a[1..] + b;
      CompactCat(a[1..], b);
    }
  }

  lemma {:induction false} CompactKeeps(s: string)
    requires NoWgSpace(s)
    ensures Compact(s) == s
  {
    if s != "" {
      CompactKeeps(s[1..]);
      assert s == [s[0]] + s[1..];
    }
  }

  /** The text after the first separator. */
  function After(s: string, sep: char): string {
    if s == "" then "" else if s[0] == sep then s[1..] else After(s[1..], sep)
  }

  /** One `Key = value` line; a key that `wg` does not know in this section is an error. */
  function ReadField(r: Reading, key: string, value: string): Option<Reading> {
    if r.section == InInterface && key == "listenport" then
      match ParseInt(value)
      case Some(n) => Some(r.(listenPort := Some(n)))
      case None => None
    else if r.section == InInterface && key == "privatekey" then Some(r.(privateKey := Some(value)))
    else if r.section == InPeer && r.peers != [] && key == "publickey" then
      Some(r.(peers := r.peers[|r.peers| - 1 := r.peers[|r.peers| - 1].(publicKey := value)]))
    else if r.section == InPeer && r.peers != [] && key == "allowedips" then
      Some(r.(peers := r.peers[|r.peers| - 1 := r.peers[|r.peers| - 1].(allowedIps := value)]))
    else None
  }

  function ReadLine(r: Reading, line: string): Option<Reading> {
    var text := Compact(line);
    if '=' in text then ReadField(r, Lower(Before(text, '=')), After(text, '='))
    else if text == "" then Some(r)
    else if Lower(text) == "[interface]" then Some(r.(section := InInterface))
    else if Lower(text) == "[peer]" then Some(r.(section := InPeer, peers := r.peers + [ConfPeer("", "")]))
    else None
  }

  function ReadLines(r: Reading, lines: seq<string>): Option<Reading> {
    if lines == [] then Some(r)
    else
      match ReadLines(r, lines[..|lines| - 1])
      case Some(r') => ReadLine(r', lines[|lines| - 1])
      case None => None
  }

  const START := Reading(Nowhere, None, None, [])

  /** What `wg` reads from a config text; None when it does not know a line. */
  function ReadConfig(config: string): Option<WgConfig> {
    match ReadLines(START, Split(config, '\n'))
    case Some(Reading(_, Some(port), Some(key), peers)) => Some(WgConfig(port, key, peers))
    case _ => None
  }

  lemma {:induction false} ReadLinesCat(r: Reading, a: seq<string>, b: seq<string>)
    ensures ReadLines(r, a + b) == match ReadLines(r, a) case Some(r') => ReadLines(r', b) case None => None
  {
    if b == [] {
      assert a + b == a;
    } else {
      var init := b[..|b| - 1];
      assert (a + b)[..|a + b| - 1] == a + init;
      ReadLinesCat(r, a, init);
    }
  }

  lemma {:induction false} ReadLinesStops(r: Reading, lines: seq<string>, k: nat)
    requires k < |lines| && forall r' :: ReadLine(r', lines[k]) == None
    ensures ReadLines(r, lines) == None
  {
    hide ReadLine;
    var init := lines[..|lines| - 1];
    if k < |init| {
      ReadLinesStops(r, init, k);
    }
  }

  // ---------------------------------------------------------------- single lines

  predicate FieldName(name: string) {
    name != "" && NoSpace(name) && '=' !in name
  }

  lemma {:induction false} BeforeSep(a: string, b: string, sep: char)
    requires sep !in a
    ensures Before(a + [sep] + b, sep) == a && After(a + [sep] + b, sep) == b
  {
    if a == "" {
      assert (a + [sep] + b)[1..] == b;
    } else {
      assert (a + [sep] + b)[1..] == a[1..] + [sep] + b;
      BeforeSep(a[1..], b, sep);
    }
  }

  lemma SpacelessCompact(s: string)
    requires NoSpace(s)
    ensures NoWgSpace(s) && Compact(s) == s && '\n' !in s
  {
    CompactKeeps(s);
  }

  /** The key by which a `Name = value` line is kept or stripped. */
  lemma FieldKey(name: string, value: string)
    requires FieldName(name)
    ensures LineKey(Field(name, value)) == Lower(name)
  {
    hide Trim, Lower, Before;
    var line := Field(name, value);
    assert line == (name + " ") + ['='] + (" " + value);
    BeforeSep(name + " ", " " + value, '=');
    assert "" + name + " " == name + " ";
    TrimPadded("", name, " ");
  }

  /** `wg` reads a `Name = value` line as that name with the value free of ASCII white space. */
  lemma FieldReads(r: Reading, name: string, value: string)
    requires FieldName(name)
    ensures ReadLine(r, Field(name, value)) == ReadField(r, Lower(name), Compact(value))
  {
    hide Lower, Compact, Before, After, ReadField;
    var line := Field(name, value);
    SpacelessCompact(name);
    CompactEquals();
    CompactCat(name, " = ");
    CompactCat(name + " = ", value);
    assert Compact(line) == name + ['='] + Compact(value);
    BeforeSep(name, Compact(value), '=');
    assert Compact(line)[|name|] == '=';
  }

  lemma CompactEquals()
    ensures Compact(" = ") == "="
  {
    assert " = "[1..] == "= " && "= "[1..] == " ";
    assert Compact(" ") == "";
    assert Compact("= ") == "=";
  }

  /** A field name and its lower-case form. */
  predicate Named(name: string, key: string) {
    FieldName(name) && Lower(name) == key
  }

  lemma QuickNames()
    ensures Named("Address", "address") && Named("MTU", "mtu") && Named("SaveConfig", "saveconfig")
    ensures QuickOnly("address") && QuickOnly("mtu") && QuickOnly("saveconfig")
  {
    assert Lower("Address") == "address";
    assert Lower("MTU") == "mtu";
    assert Lower("SaveConfig") == "saveconfig";
  }

  /** The keys of wg-quick(8), as they are usually written; a line with one of them is always stripped. */
  lemma QuickSpellings(name: string, value: string)
    requires name in ["Address", "DNS", "MTU", "Table", "PreUp", "PostUp", "PreDown", "PostDown", "SaveConfig"]
    ensures !Native(Field(name, value))
  {
    hide LineKey, Field;
    LowerHooks();
    QuickNames();
    assert Lower("DNS") == "dns" && Lower("Table") == "table";
    FieldKey(name, value);
  }

  lemma LowerHooks()
    ensures Lower("PreUp") == "preup" && Lower("PostUp") == "postup"
    ensures Lower("PreDown") == "predown" && Lower("PostDown") == "postdown"
  {
  }

  lemma InterfaceNames()
    ensures Named("ListenPort", "listenport") && Named("PrivateKey", "privatekey")
    ensures !QuickOnly("listenport") && !QuickOnly("privatekey")
  {
    assert Lower("ListenPort") == "listenport";
    assert Lower("PrivateKey") == "privatekey";
  }

  lemma PeerNames()
    ensures Named("PublicKey", "publickey") && Named("AllowedIPs", "allowedips")
    ensures !QuickOnly("publickey") && !QuickOnly("allowedips")
  {
    assert Lower("PublicKey") == "publickey";
    assert Lower("AllowedIPs") == "allowedips";
  }

  lemma WholeLineKey(line: string)
    requires '=' !in line && NoSpace(line)
    ensures LineKey(line) == Lower(line) && Compact(line) == line
  {
    hide Lower, Trim;
    SplitHead(line, '=');
    TrimSolid(line);
    SpacelessCompact(line);
  }

  lemma InterfaceHeader()
    ensures Native("[Interface]") && '=' !in "[Interface]"
    ensures forall r :: ReadLine(r, "[Interface]") == Some(r.(section := InInterface))
  {
    hide Trim, LineKey, Compact;
    WholeLineKey("[Interface]");
    assert Lower("[Interface]") == "[interface]";
  }

  lemma PeerHeader()
    ensures Native("[Peer]") && '=' !in "[Peer]"
    ensures forall r :: ReadLine(r, "[Peer]") == Some(r.(section := InPeer, peers := r.peers + [ConfPeer("", "")]))
  {
    hide Trim, LineKey, Compact;
    WholeLineKey("[Peer]");
    assert Lower("[Peer]") == "[peer]";
  }

  lemma BlankLine()
    ensures Native("") && '=' !in ""
    ensures forall r :: ReadLine(r, "") == Some(r)
  {
    hide Trim, LineKey, Compact;
    WholeLineKey("");
    assert Lower("") == "";
  }

  // ---------------------------------------------------------------- reading back

  predicate OneLine(s: string) {
    '\n' !in s
  }

  predicate OneLinePeer(p: ServerPeer) {
    OneLine(p.publicKey) && OneLine(Allowed(p))
  }

  /** No field value breaks its line. */
  predicate OneLineConfig(x: ServerConfig) {
    OneLine(x.privateKey) && OneLine(x.addressRange) && forall i :: 0 <= i < |x.peers| ==> OneLinePeer(x.peers[i])
  }

  function CompactPeers(peers: seq<ServerPeer>): (r: seq<ConfPeer>)
    ensures |r| == |peers|
    ensures forall i :: 0 <= i < |peers| ==> r[i] == ConfPeer(Compact(peers[i].publicKey), Compact(Allowed(peers[i])))
  {
    if peers == [] then []
    else
      var p := peers[|peers| - 1];
      CompactPeers(peers[..|peers| - 1]) + [ConfPeer(Compact(p.publicKey), Compact(Allowed(p)))]
  }

  /** A reading that has just seen one more peer with the given values. */
  function WithPeer(r: Reading, key: string, ips: string): Reading {
    r.(section := InPeer, peers := r.peers + [ConfPeer(key, ips)])
  }

  lemma PeerFieldLines(r: Reading, key: string, ips: string)
    ensures ReadLine(WithPeer(r, "", ""), Field("PublicKey", key)) == Some(WithPeer(r, Compact(key), ""))
    ensures ReadLine(WithPeer(r, Compact(key), ""), Field("AllowedIPs", ips)) ==
            Some(WithPeer(r, Compact(key), Compact(ips)))
  {
    hide Compact, Lower, Field, FieldName, ReadLine;
    PeerNames();
    FieldReads(WithPeer(r, "", ""), "PublicKey", key);
    FieldReads(WithPeer(r, Compact(key), ""), "AllowedIPs", ips);
    assert (r.peers + [ConfPeer("", "")])[|r.peers| := ConfPeer(Compact(key), "")] ==
        r.peers + [ConfPeer(Compact(key), "")];
    assert (r.peers + [ConfPeer(Compact(key), "")])[|r.peers| := ConfPeer(Compact(key), Compact(ips))]
        == r.peers + [ConfPeer(Compact(key), Compact(ips))];
  }

  lemma BlockReads(r: Reading, p: ServerPeer)
    ensures ReadLines(r, PeerBlock(p)) == Some(WithPeer(r, Compact(p.publicKey), Compact(Allowed(p))))
  {
    hide ReadLine, ReadLines, Compact, Field, Allowed, Native;
    PeerHeader();
    PeerFieldLines(r, p.publicKey, Allowed(p));
    BlankLine();
    FourLines(r, WithPeer(r, "", ""), WithPeer(r, Compact(p.publicKey), ""),
        WithPeer(r, Compact(p.publicKey), Compact(Allowed(p))),
              PeerBlock(p));
  }

  lemma FourLines(r: Reading, r1: Reading, r2: Reading, r3: Reading, lines: seq<string>)
    requires |lines| == 4 && ReadLine(r, lines[0]) == Some(r1) && ReadLine(r1, lines[1]) == Some(r2)
    requires ReadLine(r2, lines[2]) == Some(r3) && ReadLine(r3, lines[3]) == Some(r3)
    ensures ReadLines(r, lines) == Some(r3)
  {
    hide ReadLine;
    assert lines[..3][..2] == lines[..2] && lines[..2][..1] == lines[..1];
    assert ReadLines(r, lines[..1]) == Some(r1) by {
      assert lines[..1][..0] == [];
    }
    assert ReadLines(r, lines[..2]) == Some(r2);
    assert ReadLines(r, lines[..3]) == Some(r3);
  }

  lemma {:induction false} BlocksRead(r: Reading, peers: seq<ServerPeer>)
    ensures ReadLines(r, PeerBlocks(peers)).Some?
    ensures ReadLines(r, PeerBlocks(peers)).value.peers == r.peers + CompactPeers(peers)
    ensures ReadLines(r, PeerBlocks(peers)).value.listenPort == r.listenPort
    ensures ReadLines(r, PeerBlocks(peers)).value.privateKey == r.privateKey
  {
    hide PeerBlock, Compact, Allowed;
    if peers == [] {
      assert r.peers + CompactPeers(peers) == r.peers;
    } else {
      var init, p := peers[..|peers| - 1], peers[|peers| - 1];
      BlocksRead(r, init);
      ReadLinesCat(r, PeerBlocks(init), PeerBlock(p));
      BlockReads(ReadLines(r, PeerBlocks(init)).value, p);
      assert r.peers + CompactPeers(init) + [ConfPeer(Compact(p.publicKey), Compact(Allowed(p)))] ==
          r.peers + CompactPeers(peers);
    }
  }

  lemma {:induction false} BlocksNative(peers: seq<ServerPeer>)
    ensures NativeOf(PeerBlocks(peers)) == PeerBlocks(peers)
  {
    hide Native, PeerBlock;
    if peers != [] {
      var init, p := peers[..|peers| - 1], peers[|peers| - 1];
      BlocksNative(init);
      BlockNative(p);
      NativeOfCat(PeerBlocks(init), PeerBlock(p));
    }
  }

  lemma FieldNative(name: string, key: string, value: string)
    requires Named(name, key)
    ensures Native(Field(name, value)) <==> !QuickOnly(key)
  {
    hide LineKey, Field, Lower, FieldName;
    FieldKey(name, value);
  }

  lemma BlockNative(p: ServerPeer)
    ensures NativeOf(PeerBlock(p)) == PeerBlock(p)
  {
    hide Native, Named, QuickOnly, Field, Allowed, ReadLine;
    PeerHeader();
    BlankLine();
    PeerNames();
    FieldNative("PublicKey", "publickey", p.publicKey);
    FieldNative("AllowedIPs", "allowedips", Allowed(p));
    NativeOfKeeps(PeerBlock(p));
  }

  lemma NativeOfOne(line: string)
    ensures NativeOf([line]) == if Native(line) then [line] else []
  {
    assert [line][..0] == [];
  }

  /** A wg-quick-only line, present or not, is stripped. */
  lemma QuickGone(name: string, key: string, value: string, present: bool)
    requires Named(name, key) && QuickOnly(key)
    ensures NativeOf(if present then [Field(name, value)] else []) == []
  {
    hide Native, Named, Field;
    FieldNative(name, key, value);
    NativeOfOne(Field(name, value));
  }

  lemma InterfaceNative(x: ServerConfig)
    ensures NativeOf(InterfaceLines(x)) == ["[Interface]"] + NativeLines(x)
  {
    hide Native, NativeOf, Named, QuickOnly, Field, IntText, Decimal, ReadLine, NativeLines;
    InterfaceHeader();
    QuickNames();
    var mtu := x.mtu.Some? && x.mtu.value != 0;
    var mtuText := if mtu then Decimal(x.mtu.value) else "";
    QuickGone("Address", "address", x.addressRange, true);
    QuickGone("MTU", "mtu", mtuText, mtu);
    QuickGone("SaveConfig", "saveconfig", "true", x.saveConfig);
    var address := [Field("Address", x.addressRange)];
    var mtuLines := if mtu then [Field("MTU", mtuText)] else [];
    var saveLines := if x.saveConfig then [Field("SaveConfig", "true")] else [];
    NativeOfOne("[Interface]");
    NativeLinesNative(x);
    NativeOfCat(["[Interface]"], address);
    NativeOfCat(["[Interface]"] + address, mtuLines);
    NativeOfCat(["[Interface]"] + address + mtuLines, saveLines);
    NativeOfCat(["[Interface]"] + address + mtuLines + saveLines, NativeLines(x));
    assert ["[Interface]"] + address == ["[Interface]", Field("Address", x.addressRange)];
    assert InterfaceLines(x) == ["[Interface]"] + address + mtuLines + saveLines + NativeLines(x);
  }

  lemma NativeLinesNative(x: ServerConfig)
    ensures NativeOf(NativeLines(x)) == NativeLines(x)
  {
    hide Native, Named, QuickOnly, Field, IntText, ReadLine;
    BlankLine();
    InterfaceNames();
    FieldNative("ListenPort", "listenport", IntText(x.listenPort));
    FieldNative("PrivateKey", "privatekey", x.privateKey);
    NativeOfKeeps(NativeLines(x));
  }

  lemma InterfaceFieldLines(r: Reading, port: int, privateKey: string)
    requires r.section == InInterface
    ensures ReadLine(r, Field("ListenPort", IntText(port))) == Some(r.(listenPort := Some(port)))
    ensures ReadLine(r, Field("PrivateKey", privateKey)) == Some(r.(privateKey := Some(Compact(privateKey))))
  {
    hide Compact, Lower, Field, IntText, ParseInt, FieldName, ReadLine;
    InterfaceNames();
    FieldReads(r, "ListenPort", IntText(port));
    FieldReads(r, "PrivateKey", privateKey);
    IntTextSpaceless(port);
    ParseIntText(port);
  }

  lemma InterfaceReads(x: ServerConfig)
    ensures ReadLines(START, ["[Interface]"] + NativeLines(x)) ==
            Some(Reading(InInterface, Some(x.listenPort), Some(Compact(x.privateKey)), []))
  {
    hide ReadLine, ReadLines, Compact, Field, IntText, Native;
    var r1 := START.(section := InInterface);
    var r2 := r1.(listenPort := Some(x.listenPort));
    var r3 := r2.(privateKey := Some(Compact(x.privateKey)));
    InterfaceHeader();
    InterfaceFieldLines(r1, x.listenPort, x.privateKey);
    InterfaceFieldLines(r2, x.listenPort, x.privateKey);
    BlankLine();
    FourLines(START, r1, r2, r3, ["[Interface]"] + NativeLines(x));
  }

  lemma IntTextSpaceless(n: int)
    ensures Compact(IntText(n)) == IntText(n) && '\n' !in IntText(n)
  {
    hide Compact, Decimal;
    DecimalDigits(if n < 0 then -n else n);
    SpacelessCompact(IntText(n));
  }

  lemma {:induction false} BlocksOneLine(peers: seq<ServerPeer>)
    requires forall i :: 0 <= i < |peers| ==> OneLinePeer(peers[i])
    ensures Free(PeerBlocks(peers), '\n')
  {
    hide Allowed;
    if peers != [] {
      BlocksOneLine(peers[..|peers| - 1]);
    }
  }

  lemma InterfaceOneLine(x: ServerConfig)
    requires OneLine(x.privateKey) && OneLine(x.addressRange)
    ensures Free(InterfaceLines(x), '\n') && InterfaceLines(x) != []
  {
    hide IntText, Decimal;
    IntTextSpaceless(x.listenPort);
    if x.mtu.Some? {
      DecimalDigits(x.mtu.value);
    }
  }

  function ReadBack(x: ServerConfig): WgConfig {
    WgConfig(x.listenPort, Compact(x.privateKey), CompactPeers(x.peers))
  }

  /**
   The stripped config reads back to its port, key and ordered peer list, for
   every config whose values hold no newline.
   */
  lemma ConfigReadsBack(x: ServerConfig)
    requires OneLineConfig(x)
    ensures ReadConfig(StripForSync(ConfigText(x))) == Some(ReadBack(x))
  {
    hide Split, Join, ReadLines, NativeOf, InterfaceLines, NativeLines, Compact;
    var lines := InterfaceLines(x) + PeerBlocks(x.peers);
    InterfaceOneLine(x);
    BlocksOneLine(x.peers);
    SplitJoin(lines, '\n');
    StrippedLines(ConfigText(x));
    InterfaceNative(x);
    BlocksNative(x.peers);
    NativeOfCat(InterfaceLines(x), PeerBlocks(x.peers));
    var native := ["[Interface]"] + NativeLines(x);
    InterfaceReads(x);
    var r := Reading(InInterface, Some(x.listenPort), Some(Compact(x.privateKey)), []);
    BlocksRead(r, x.peers);
    ReadLinesCat(START, native, PeerBlocks(x.peers));
    assert [] + CompactPeers(x.peers) == CompactPeers(x.peers);
  }

  // ---------------------------------------------------------------- what wg-quick reads

  /** The values of the lines with a key, as wg-quick takes them from the unstripped text. */
  function QuickValues(lines: seq<string>, key: string): seq<string> {
    if lines == [] then []
    else
      var line := lines[|lines| - 1];
      QuickValues(lines[..|lines| - 1], key) +
      (if '=' in line && LineKey(line) == key then [Trim(After(line, '='))] else [])
  }

  /** The unstripped text sets the address once, and the MTU and the saving as configured. */
  lemma QuickReadsBack(x: ServerConfig)
    requires OneLineConfig(x)
    ensures var lines := Split(ConfigText(x), '\n');
            && QuickValues(lines, "address") == [Trim(x.addressRange)]
            && QuickValues(lines, "mtu") == (if x.mtu.Some? && x.mtu.value != 0 then [Decimal(x.mtu.value)] else [])
            && QuickValues(lines, "saveconfig") == if x.saveConfig then ["true"] else []
  {
    hide Split, Join, InterfaceLines, QuickLines, LineKey, Trim, Decimal, Named, QuickValues, QuickOnly;
    InterfaceOneLine(x);
    BlocksOneLine(x.peers);
    SplitJoin(InterfaceLines(x) + PeerBlocks(x.peers), '\n');
    QuickNames();
    QuickPart(x, "address");
    QuickPart(x, "mtu");
    QuickPart(x, "saveconfig");
    QuickLinesRead(x);
  }

  /** Only the lines that wg-quick alone understands say something about such a key. */
  lemma QuickPart(x: ServerConfig, key: string)
    requires QuickOnly(key)
    ensures QuickValues(InterfaceLines(x) + PeerBlocks(x.peers), key) == QuickValues(QuickLines(x), key)
  {
    hide LineKey, Trim, QuickOnly, QuickValues, NativeOf, Native, NativeLines, QuickLines, InterfaceLines, ReadLine;
    var header := ["[Interface]"];
    InThreeParts(x);
    QuickValuesCat(InterfaceLines(x), PeerBlocks(x.peers), key);
    QuickValuesCat(header + QuickLines(x), NativeLines(x), key);
    QuickValuesCat(header, QuickLines(x), key);
    BlocksNative(x.peers);
    NativeSilent(PeerBlocks(x.peers), key);
    NativeLinesNative(x);
    NativeSilent(NativeLines(x), key);
    InterfaceHeader();
    OneQuickValue("[Interface]", key);
  }

  lemma InThreeParts(x: ServerConfig)
    ensures InterfaceLines(x) == ["[Interface]"] + QuickLines(x) + NativeLines(x)
  {
    hide Field, Decimal, NativeLines;
  }

  /** The interface lines that wg-quick alone understands. */
  function QuickLines(x: ServerConfig): seq<string> {
    [Field("Address", x.addressRange)] +
    (if x.mtu.Some? && x.mtu.value != 0 then [Field("MTU", Decimal(x.mtu.value))] else []) +
    (if x.saveConfig then [Field("SaveConfig", "true")] else [])
  }

  lemma QuickLinesRead(x: ServerConfig)
    ensures QuickValues(QuickLines(x), "address") == [Trim(x.addressRange)]
    ensures QuickValues(QuickLines(x), "mtu") ==
            if x.mtu.Some? && x.mtu.value != 0 then [Decimal(x.mtu.value)] else []
    ensures QuickValues(QuickLines(x), "saveconfig") == if x.saveConfig then ["true"] else []
  {
    hide LineKey, Field, Trim, Decimal, Named, QuickOnly, QuickValues;
    QuickNames();
    DifferentKeys();
    var address := [Field("Address", x.addressRange)];
    var mtu := if x.mtu.Some? && x.mtu.value != 0 then [Field("MTU", Decimal(x.mtu.value))] else [];
    var save := if x.saveConfig then [Field("SaveConfig", "true")] else [];
    forall key | key in ["address", "mtu", "saveconfig"]
      ensures QuickValues(QuickLines(x), key) ==
              QuickValues(address, key) + QuickValues(mtu, key) + QuickValues(save, key)
    {
      QuickValuesCat(address + mtu, save, key);
      QuickValuesCat(address, mtu, key);
    }
    forall key | key in ["address", "mtu", "saveconfig"]
      ensures QuickValues(address, key) == if key == "address" then [Trim(x.addressRange)] else []
      ensures QuickValues(mtu, key) == if key == "mtu" && mtu != [] then [Decimal(x.mtu.value)] else []
      ensures QuickValues(save, key) == if key == "saveconfig" && save != [] then ["true"] else []
    {
      QuickField("Address", "address", x.addressRange, key);
      if mtu != [] {
        QuickField("MTU", "mtu", Decimal(x.mtu.value), key);
        DecimalDigits(x.mtu.value);
        TrimSolid(Decimal(x.mtu.value));
      }
      QuickField("SaveConfig", "saveconfig", "true", key);
      TrimSolid("true");
      NoQuickValue(key);
    }
  }

  lemma DifferentKeys()
    ensures "address" != "mtu" && "mtu" != "saveconfig" && "address" != "saveconfig"
  {
    assert |"address"| == 7 && |"mtu"| == 3 && |"saveconfig"| == 10;
  }

  lemma NoQuickValue(key: string)
    ensures QuickValues([], key) == []
  {
  }

  lemma OneQuickValue(line: string, key: string)
    ensures QuickValues([line], key) == if '=' in line && LineKey(line) == key then [Trim(After(line, '='))] else []
  {
    hide LineKey, Trim;
    assert [line][..0] == [];
  }

  lemma QuickField(name: string, key: string, value: string, wanted: string)
    requires Named(name, key)
    ensures QuickValues([Field(name, value)], wanted) == if wanted == key then [Trim(value)] else []
  {
    hide LineKey, Lower, Trim, QuickValues;
    var line := Field(name, value);
    OneQuickValue(line, wanted);
    FieldKey(name, value);
    assert line == (name + " ") + ['='] + (" " + value);
    BeforeSep(name + " ", " " + value, '=');
    assert line[|name| + 1] == '=';
    assert " " + value + "" == " " + value;
    TrimOuter(" ", value, "");
  }

  lemma {:induction false} QuickValuesCat(a: seq<string>, b: seq<string>, key: string)
    ensures QuickValues(a + b, key) == QuickValues(a, key) + QuickValues(b, key)
  {
    hide LineKey, Trim;
    if b == [] {
      assert a + b == a;
    } else {
      assert (a + b)[..|a + b| - 1] == a + b[..|b| - 1];
      QuickValuesCat(a, b[..|b| - 1], key);
    }
  }

  /** Native lines say nothing to wg-quick alone. */
  lemma {:induction false} NativeSilent(lines: seq<string>, key: string)
    requires NativeOf(lines) == lines && QuickOnly(key)
    ensures QuickValues(lines, key) == []
  {
    hide LineKey, Trim, QuickOnly;
    NativeOfExact(lines);
    if lines != [] {
      var init, last := lines[..|lines| - 1], lines[|lines| - 1];
      assert lines == init + [last];
      forall i | 0 <= i < |init|
        ensures Native(init[i])
      {
        assert lines[i] == init[i];
      }
      NativeOfKeeps(init);
      NativeSilent(init, key);
      assert Native(lines[|lines| - 1]);
    }
  }

  // ---------------------------------------------------------------- exactly when

  /** The values as they were given, untrimmed. */
  function Verbatim(x: ServerConfig): WgConfig {
    WgConfig(x.listenPort, x.privateKey, VerbatimPeers(x.peers))
  }

  function VerbatimPeers(peers: seq<ServerPeer>): (r: seq<ConfPeer>)
    ensures |r| == |peers|
    ensures forall i :: 0 <= i < |peers| ==> r[i] == ConfPeer(peers[i].publicKey, Allowed(peers[i]))
  {
    if peers == [] then []
    else
      var p := peers[|peers| - 1];
      VerbatimPeers(peers[..|peers| - 1]) + [ConfPeer(p.publicKey, Allowed(p))]
  }

  predicate CleanReading(r: Reading) {
    (r.privateKey.Some? ==> NoWgSpace(r.privateKey.value)) &&
    forall i :: 0 <= i < |r.peers| ==> NoWgSpace(r.peers[i].publicKey) && NoWgSpace(r.peers[i].allowedIps)
  }

  lemma {:induction false} AfterWithin(s: string, sep: char)
    requires NoWgSpace(s)
    ensures NoWgSpace(After(s, sep))
  {
    if s != "" {
      AfterWithin(s[1..], sep);
    }
  }

  lemma {:induction false} ReadValuesClean(r: Reading, lines: seq<string>)
    requires CleanReading(r)
    ensures ReadLines(r, lines).Some? ==> CleanReading(ReadLines(r, lines).value)
  {
    hide ReadLine, NoWgSpace;
    if lines != [] {
      ReadValuesClean(r, lines[..|lines| - 1]);
      if ReadLines(r, lines[..|lines| - 1]).Some? {
        ReadLineClean(ReadLines(r, lines[..|lines| - 1]).value, lines[|lines| - 1]);
      }
    }
  }

  lemma ReadLineClean(r: Reading, line: string)
    requires CleanReading(r)
    ensures ReadLine(r, line).Some? ==> CleanReading(ReadLine(r, line).value)
  {
    hide Compact, After, Lower, ParseInt, NoWgSpace;
    AfterWithin(Compact(line), '=');
    assert NoWgSpace("") by { EmptyClean(); }
  }

  lemma EmptyClean()
    ensures NoWgSpace("")
  {
  }

  /** No value holds white space of ASCII. */
  predicate CleanConfig(x: ServerConfig) {
    NoWgSpace(x.privateKey) &&
    forall i :: 0 <= i < |x.peers| ==> NoWgSpace(x.peers[i].publicKey) && NoWgSpace(Allowed(x.peers[i]))
  }

  /** Every value comes back verbatim exactly when no value holds white space of ASCII, a newline included. */
  lemma ReadsBackVerbatimExactly(x: ServerConfig)
    requires OneLine(x.addressRange)
    ensures ReadConfig(StripForSync(ConfigText(x))) == Some(Verbatim(x)) <==> CleanConfig(x)
  {
    hide Split, ConfigText, StripForSync, ReadLines, Compact, Allowed;
    var lines := Split(StripForSync(ConfigText(x)), '\n');
    if ReadConfig(StripForSync(ConfigText(x))) == Some(Verbatim(x)) {
      ReadValuesClean(START, lines);
      var r := ReadLines(START, lines).value;
      assert r.peers == VerbatimPeers(x.peers);
      forall i | 0 <= i < |x.peers|
        ensures NoWgSpace(x.peers[i].publicKey) && NoWgSpace(Allowed(x.peers[i]))
      {
        assert r.peers[i] == ConfPeer(x.peers[i].publicKey, Allowed(x.peers[i]));
      }
    }
    if CleanConfig(x) {
      CompactKeeps(x.privateKey);
      forall i | 0 <= i < |x.peers|
        ensures CompactPeers(x.peers)[i] == VerbatimPeers(x.peers)[i]
      {
        CompactKeeps(x.peers[i].publicKey);
        CompactKeeps(Allowed(x.peers[i]));
      }
      ConfigReadsBack(x);
      assert CompactPeers(x.peers) == VerbatimPeers(x.peers);
    }
  }

  /** A line that no reader state accepts: not blank, no `=`, not a section header. */
  predicate Unreadable(line: string) {
    var text := Compact(line);
    '=' !in text && text != "" && Lower(text) != "[interface]" && Lower(text) != "[peer]"
  }

  lemma UnreadableLineRefused(r: Reading, lines: seq<string>, k: nat)
    requires k < |lines| && Unreadable(lines[k])
    ensures ReadLines(r, lines) == None
  {
    hide ReadLines, Compact, Lower;
    ReadLinesStops(r, lines, k);
  }

  /** Without stripping, `wg` refuses the text: this is why the source strips it. */
  lemma UnstrippedRefused(x: ServerConfig)
    requires OneLine(x.addressRange)
    ensures ReadConfig(ConfigText(x)) == None
  {
    hide Split, Join, ReadLines, ReadLine, NativeLines, PeerBlocks, Flatten, Field;
    var lines := InterfaceLines(x) + PeerBlocks(x.peers);
    SplitJoinFlatten(lines, '\n');
    AddressLineRefused(x.addressRange);
    var head := ["[Interface]", Field("Address", x.addressRange)];
    var rest := lines[2..];
    assert lines == head + rest;
    FlattenCat(head, rest, '\n');
    AddressLineFree(x.addressRange);
    FlattenFree(head, '\n');
    ReadLinesStops(START, Flatten(lines, '\n'), 1);
  }

  lemma AddressLineFree(address: string)
    requires OneLine(address)
    ensures Free(["[Interface]", Field("Address", address)], '\n')
  {
  }

  lemma AddressLineRefused(address: string)
    ensures forall r :: ReadLine(r, Field("Address", address)) == None
  {
    hide Lower, Field, FieldName, ParseInt, ReadLine;
    QuickNames();
    forall r: Reading
      ensures ReadLine(r, Field("Address", address)) == None
    {
      FieldReads(r, "Address", address);
    }
  }

  // ---------------------------------------------------------------- an address with a newline in it

  lemma {:induction false} FlattenContains(parts: seq<string>, sep: char, i: nat, part: string)
    requires i < |parts| && part in Split(parts[i], sep)
    ensures part in Flatten(parts, sep)
  {
    hide Split;
    if i > 0 {
      FlattenContains(parts[1..], sep, i - 1, part);
    }
  }

  lemma {:induction false} BlocksContain(peers: seq<ServerPeer>, k: nat)
    requires k < |peers|
    ensures Field("AllowedIPs", Allowed(peers[k])) in PeerBlocks(peers)
  {
    hide Field, Allowed;
    if k == |peers| - 1 {
      assert PeerBlock(peers[k])[2] == Field("AllowedIPs", Allowed(peers[k]));
    } else {
      BlocksContain(peers[..|peers| - 1], k);
    }
  }

  lemma {:induction false} LastNewline(s: string) returns (a: string, b: string)
    requires '\n' in s
    ensures s == a + ['\n'] + b && '\n' !in b
  {
    var init, c := s[..|s| - 1], s[|s| - 1];
    assert s == init + [c];
    if c == '\n' {
      a, b := init, "";
      assert s == a + ['\n'] + b;
    } else {
      var a', b' := LastNewline(init);
      a, b := a', b' + [c];
      assert s == a + ['\n'] + b;
    }
  }

  /** The tail of a stored address with its mask, on a line of its own, is kept by stripping and refused by `wg`. */
  lemma AddressTailUnreadable(b: string)
    requires AddressChars(b)
    ensures Unreadable(b + "/32") && Native(b + "/32")
  {
    hide Trim, QuickOnly, Compact;
    var line := b + "/32";
    SplitHead(line, '=');
    TrimKeepsLast(line);
    CompactCat(b, "/32");
    assert Compact("/32") == "/32" by { CompactKeeps("/32"); }
    var low, text := Lower(Trim(line)), Compact(line);
    assert low[|low| - 1] == '2' && Lower(text)[|text| - 1] == '2';
    EndsInTwo(low);
    EndsInTwo(Lower(text));
  }

  lemma EndsInTwo(s: string)
    requires s != "" && s[|s| - 1] == '2'
    ensures !QuickOnly(s) && s != "[interface]" && s != "[peer]"
  {
  }

  /** An address text with a newline in it makes `wg` refuse the whole config. */
  lemma BrokenAddressRefused(x: ServerConfig, k: nat)
    requires k < |x.peers| && x.peers[k].allowedIps == None && x.peers[k].tunnelAddress.Some?
    requires AddressChars(x.peers[k].tunnelAddress.value) && '\n' in x.peers[k].tunnelAddress.value
    ensures ReadConfig(StripForSync(ConfigText(x))) == None
  {
    hide Split, Join, ReadLines, Native, NativeOf, InterfaceLines, PeerBlocks, Flatten, Unreadable, Field;
    var lines := InterfaceLines(x) + PeerBlocks(x.peers);
    var text := ConfigText(x);
    var t := x.peers[k].tunnelAddress.value;
    var a, b := LastNewline(t);
    var tail := b + "/32";
    assert forall i :: 0 <= i < |b| ==> b[i] == t[|a| + 1 + i];
    AddressTailUnreadable(b);
    BlocksContain(x.peers, k);
    var line := Field("AllowedIPs", t + "/32");
    assert tail in Split(line, '\n') by {
      BrokenLineSplits(a, b);
    }
    assert lines != [] by { InterfaceNotEmpty(x); }
    assert line in PeerBlocks(x.peers) && line in lines;
    var i :| 0 <= i < |lines| && lines[i] == line;
    SplitJoinFlatten(lines, '\n');
    FlattenContains(lines, '\n', i, tail);
    NativeOfExact(Split(text, '\n'));
    StrippedLines(text);
    var kept := Split(StripForSync(text), '\n');
    var j :| 0 <= j < |kept| && kept[j] == tail;
    UnreadableLineRefused(START, kept, j);
  }

  lemma InterfaceNotEmpty(x: ServerConfig)
    ensures InterfaceLines(x) != []
  {
  }

  lemma BrokenLineSplits(a: string, b: string)
    requires '\n' !in b
    ensures b + "/32" in Split(Field("AllowedIPs", a + ['\n'] + b + "/32"), '\n')
  {
    hide Split;
    var head := "AllowedIPs = " + a;
    assert Field("AllowedIPs", a + ['\n'] + b + "/32") == head + ['\n'] + (b + "/32");
    SplitCat(head, b + "/32", '\n');
    SplitHead(b + "/32", '\n');
    assert [b + "/32"][0] == b + "/32";
  }
}
