/**
 The vetted remote commands (backend/src/remote/commands.ts) and a reader of the
 shell's token rules: sections 2.2.1 and 2.2.2 (escape character, single quotes)
 and 2.3 (token recognition) of the POSIX.1-2017 Shell Command Language.
 */
module Shell {
  import opened Wrappers
  import opened Text
  import opened Net

  // ---------------------------------------------------------------- quoting

  /** `value.replace(/'/g, "'\\''")`. */
  function EscapeQuotes(value: string): string {
    if value == "" then ""
    else (if value[0] == '\'' then "'\\''" else [value[0]]) + EscapeQuotes(value[1..])
  }

  function Shq(value: string): string {
    "'" + EscapeQuotes(value) + "'"
  }

  // ---------------------------------------------------------------- the shell's reader

  datatype Token = Word(text: string) | AndIf | OrIf | Great

  /** Characters that stand for themselves outside quotes; the rest quote, expand, glob or separate. */
  predicate Plain(c: char) {
    'a' <= c <= 'z' || 'A' <= c <= 'Z' || IsDigit(c) || c == '-' || c == '_' || c == '.' || c == '/' || c == ':'
  }

  /** Outside a word, inside an unquoted stretch of one, or inside single quotes. */
  datatype Mode = Between | InWord | InQuotes

  datatype Reading = Reading(mode: Mode, word: string, tokens: seq<Token>)

  function EndWord(r: Reading): Reading {
    if r.mode == InWord then Reading(Between, "", r.tokens + [Word(r.word)]) else r
  }

  /**
   Reads a command line from the left. None for anything with another meaning to
   the shell: expansions, double quotes, patterns, other operators, a number in
   front of a redirection, an open quote.
   */
  function ReadFrom(r: Reading, s: string): Option<seq<Token>>
    decreases |s|
  {
    if s == "" then if r.mode == InQuotes then None else Some(EndWord(r).tokens)
    else if r.mode == InQuotes then
      if s[0] == '\'' then ReadFrom(r.(mode := InWord), s[1..]) else ReadFrom(r.(word := r.word + [s[0]]), s[1..])
    else if s[0] == '\'' then ReadFrom(r.(mode := InQuotes), s[1..])
    else if s[0] == '\\' then
      if |s| >= 2 && s[1] != '\n' then ReadFrom(r.(mode := InWord, word := r.word + [s[1]]), s[2..]) else None
    else if s[0] == ' ' then ReadFrom(EndWord(r), s[1..])
    else if s[0] == '>' then
      if |s| >= 2 && s[1] == ' ' && !(r.mode == InWord && AllDigits(r.word))
          then ReadFrom(EndWord(r).(tokens := EndWord(r).tokens + [Great]), s[1..]) else None
    else if |s| >= 2 && s[..2] == "&&" then ReadFrom(EndWord(r).(tokens := EndWord(r).tokens + [AndIf]), s[2..])
    else if |s| >= 2 && s[..2] == "||" then ReadFrom(EndWord(r).(tokens := EndWord(r).tokens + [OrIf]), s[2..])
    else if Plain(s[0]) then ReadFrom(r.(mode := InWord, word := r.word + [s[0]]), s[1..])
    else None
  }

  function Tokens(command: string): Option<seq<Token>> {
    ReadFrom(Reading(Between, "", []), command)
  }

  lemma QuoteCloses(r: Reading, rest: string)
    requires r.mode == InQuotes
    ensures ReadFrom(r, "'" + rest) == ReadFrom(r.(mode := InWord), rest)
  {
    assert ("'" + rest)[1..] == rest;
  }

  lemma QuoteOpens(r: Reading, rest: string)
    requires r.mode != InQuotes
    ensures ReadFrom(r, "'" + rest) == ReadFrom(r.(mode := InQuotes), rest)
  {
    assert ("'" + rest)[1..] == rest;
  }

  lemma EscapeReads(r: Reading, rest: string)
    requires r.mode != InQuotes
    ensures ReadFrom(r, "\\'" + rest) == ReadFrom(r.(mode := InWord, word := r.word + ['\'']), rest)
  {
    assert ("\\'" + rest)[2..] == rest;
  }

  lemma LiteralReads(r: Reading, c: char, rest: string)
    requires r.mode == InQuotes && c != '\''
    ensures ReadFrom(r, [c] + rest) == ReadFrom(r.(word := r.word + [c]), rest)
  {
    assert ([c] + rest)[1..] == rest;
  }

  /** Closing quote, escaped quote, opening quote: one literal quote in the word. */
  lemma EscapedQuoteReads(r: Reading, rest: string)
    requires r.mode == InQuotes
    ensures ReadFrom(r, "'\\''" + rest) == ReadFrom(r.(word := r.word + ['\'']), rest)
  {
    hide ReadFrom;
    QuoteCloses(r, "\\'" + ("'" + rest));
    assert "'" + ("\\'" + ("'" + rest)) == "'\\''" + rest;
    EscapeReads(r.(mode := InWord), "'" + rest);
    QuoteOpens(r.(mode := InWord, word := r.word + ['\'']), rest);
  }

  /** Inside the quotes the escaped text reads as the text itself, whatever it is. */
  lemma {:induction false} QuotedReads(r: Reading, value: string, rest: string)
    requires r.mode == InQuotes
    ensures ReadFrom(r, EscapeQuotes(value) + "'" + rest) == ReadFrom(r.(mode := InWord, word := r.word + value), rest)
    decreases |value|
  {
    hide ReadFrom;
    if value == "" {
      assert EscapeQuotes(value) + "'" + rest == "'" + rest;
      QuoteCloses(r, rest);
      assert r.word + value == r.word;
    } else {
      var tail := EscapeQuotes(value[1..]) + "'" + rest;
      QuotedReads(r.(word := r.word + [value[0]]), value[1..], rest);
      assert r.word + [value[0]] + value[1..] == r.word + value;
      if value[0] == '\'' {
        assert EscapeQuotes(value) + "'" + rest == "'\\''" + tail;
        EscapedQuoteReads(r, tail);
      } else {
        assert EscapeQuotes(value) + "'" + rest == [value[0]] + tail;
        LiteralReads(r, value[0], tail);
      }
    }
  }

  /** A quoted value joins the current word; after it comes the rest. */
  lemma ShqReads(r: Reading, value: string, rest: string)
    requires r.mode != InQuotes
    ensures ReadFrom(r, Shq(value) + rest) == ReadFrom(r.(mode := InWord, word := r.word + value), rest)
  {
    hide EscapeQuotes, ReadFrom;
    assert Shq(value) + rest == "'" + (EscapeQuotes(value) + "'" + rest);
    QuoteOpens(r, EscapeQuotes(value) + "'" + rest);
    QuotedReads(r.(mode := InQuotes), value, rest);
  }

  lemma LineEnds(word: string, tokens: seq<Token>)
    ensures ReadFrom(Reading(InWord, word, tokens), "") == Some(tokens + [Word(word)])
  {
  }

  /** Reading a quoted value yields the single word it was made from, for every text. */
  lemma ShqRoundTrip(value: string)
    ensures Tokens(Shq(value)) == Some([Word(value)])
  {
    hide Shq, ReadFrom;
    ShqReads(Reading(Between, "", []), value, "");
    assert Shq(value) + "" == Shq(value);
    assert "" + value == value;
    LineEnds(value, []);
    assert [] + [Word(value)] == [Word(value)];
  }

  predicate AllPlain(s: string) {
    forall i :: 0 <= i < |s| ==> Plain(s[i])
  }

  lemma {:induction false} PlainReads(r: Reading, s: string, rest: string)
    requires r.mode != InQuotes && AllPlain(s) && s != ""
    ensures ReadFrom(r, s + rest) == ReadFrom(r.(mode := InWord, word := r.word + s), rest)
    decreases |s|
  {
    var whole := s + rest;
    assert whole[1..] == s[1..] + rest;
    assert |whole| >= 2 ==> whole[..2][0] == s[0];
    var r' := r.(mode := InWord, word := r.word + [s[0]]);
    if |s| > 1 {
      PlainReads(r', s[1..], rest);
      assert r.word + [s[0]] + s[1..] == r.word + s;
    } else {
      assert s[1..] + rest == rest;
      assert s == [s[0]];
    }
  }

  // ---------------------------------------------------------------- command lines as pieces

  /** A piece of a command: bare text, a quoted value, or an operator; pieces are joined by spaces. */
  datatype Piece = Bare(text: string) | Quoted(value: string) | Operator(token: Token)

  function PieceText(p: Piece): string {
    match p
    case Bare(text) => text
    case Quoted(value) => Shq(value)
    case Operator(AndIf) => "&&"
    case Operator(OrIf) => "||"
    case Operator(_) => ">"
  }

  function PieceToken(p: Piece): Token {
    match p
    case Bare(text) => Word(text)
    case Quoted(value) => Word(value)
    case Operator(token) => token
  }

  predicate PieceOk(p: Piece) {
    match p
    case Bare(text) => text != "" && AllPlain(text)
    case Quoted(_) => true
    case Operator(token) => !token.Word?
  }

  function Line(pieces: seq<Piece>): string {
    if pieces == [] then ""
    else if |pieces| == 1 then PieceText(pieces[0])
    else PieceText(pieces[0]) + " " + Line(pieces[1..])
  }

  function PieceTokens(pieces: seq<Piece>): seq<Token> {
    if pieces == [] then [] else [PieceToken(pieces[0])] + PieceTokens(pieces[1..])
  }

  lemma PieceReads(tokens: seq<Token>, p: Piece, rest: string)
    requires PieceOk(p) && (p.Operator? ==> rest != "" && rest[0] == ' ')
    ensures ReadFrom(Reading(Between, "", tokens), PieceText(p) + rest) ==
            if p.Operator? then ReadFrom(Reading(Between, "", tokens + [PieceToken(p)]), rest)
            else ReadFrom(Reading(InWord, PieceToken(p).text, tokens), rest)
  {
    hide Shq, AllPlain;
    var r := Reading(Between, "", tokens);
    match p
    case Bare(text) =>
      PlainReads(r, text, rest);
      assert "" + text == text;
    case Quoted(value) =>
      ShqReads(r, value, rest);
      assert "" + value == value;
    case Operator(token) =>
      OperatorReads(tokens, token, rest);
  }

  lemma OperatorReads(tokens: seq<Token>, token: Token, rest: string)
    requires !token.Word? && rest != "" && rest[0] == ' '
    ensures ReadFrom(Reading(Between, "", tokens), PieceText(Operator(token)) + rest) ==
            ReadFrom(Reading(Between, "", tokens + [token]), rest)
  {
    var s := PieceText(Operator(token)) + rest;
    match token {
      case AndIf => assert s[..2] == "&&" && s[2..] == rest;
      case OrIf => assert s[..2] == "||" && s[2..] == rest;
      case Great => assert s[1] == ' ' && s[1..] == rest;
    }
  }

  lemma SpaceReads(word: string, tokens: seq<Token>, rest: string)
    ensures ReadFrom(Reading(InWord, word, tokens), " " + rest) ==
            ReadFrom(Reading(Between, "", tokens + [Word(word)]), rest)
    ensures ReadFrom(Reading(Between, "", tokens), " " + rest) == ReadFrom(Reading(Between, "", tokens), rest)
  {
    assert (" " + rest)[1..] == rest;
  }

  /** A space-joined line of well-formed pieces tokenises to exactly those pieces. */
  lemma {:induction false} LineReads(tokens: seq<Token>, pieces: seq<Piece>)
    requires pieces != [] && !pieces[|pieces| - 1].Operator?
    requires forall i :: 0 <= i < |pieces| ==> PieceOk(pieces[i])
    ensures ReadFrom(Reading(Between, "", tokens), Line(pieces)) == Some(tokens + PieceTokens(pieces))
    decreases |pieces|
  {
    hide PieceText, PieceOk, ReadFrom;
    var p := pieces[0];
    WordShape(p);
    if |pieces| == 1 {
      assert PieceText(p) + "" == Line(pieces);
      PieceReads(tokens, p, "");
      LineEnds(PieceToken(p).text, tokens);
      assert PieceTokens(pieces) == [PieceToken(p)];
    } else {
      var line := Line(pieces[1..]);
      assert Line(pieces) == PieceText(p) + (" " + line);
      PieceReads(tokens, p, " " + line);
      SpaceReads(if p.Operator? then "" else PieceToken(p).text,
                 if p.Operator? then tokens + [PieceToken(p)] else tokens, line);
      assert pieces[1..][|pieces| - 2] == pieces[|pieces| - 1];
      LineReads(tokens + [PieceToken(p)], pieces[1..]);
      assert tokens + [PieceToken(p)] + PieceTokens(pieces[1..]) == tokens + PieceTokens(pieces);
    }
  }

  lemma WordShape(p: Piece)
    ensures !p.Operator? ==> PieceToken(p) == Word(PieceToken(p).text)
  {
  }

  // ---------------------------------------------------------------- the vetted commands

  datatype VettedError = InvalidInterface | InvalidPath | InvalidMac | InvalidBroadcast | InvalidPort | InvalidHost

  predicate IsLetter(c: char) {
    'a' <= c <= 'z' || 'A' <= c <= 'Z'
  }

  /** `/^[a-zA-Z0-9_-]{1,15}$/`. */
  predicate IsInterface(s: string) {
    1 <= |s| <= 15 && forall i :: 0 <= i < |s| ==> IsLetter(s[i]) || IsDigit(s[i]) || s[i] == '_' || s[i] == '-'
  }

  /** `/^\/[\w./-]*$/`. */
  predicate IsPath(s: string) {
    && s != "" && s[0] == '/'
    && forall i :: 1 <= i < |s| ==>
         IsLetter(s[i]) || IsDigit(s[i]) || s[i] == '_' || s[i] == '.' || s[i] == '/' || s[i] == '-'
  }

  datatype Action = Up | Down

  function WgShow(iface: string): Result<string, VettedError> {
    if !IsInterface(iface) then Err(InvalidInterface) else Ok("wg show " + Shq(iface) + " dump")
  }

  function WgSyncConf(iface: string, confPath: string): Result<string, VettedError> {
    if !IsInterface(iface) then Err(InvalidInterface)
    else if !IsPath(confPath) then Err(InvalidPath)
    else Ok("wg syncconf " + Shq(iface) + " " + Shq(confPath))
  }

  function ActionText(action: Action): string {
    if action == Up then "up" else "down"
  }

  function WgQuick(action: Action, iface: string): Result<string, VettedError> {
    if !IsInterface(iface) then Err(InvalidInterface) else Ok("wg-quick " + ActionText(action) + " " + Shq(iface))
  }

  function WriteConfig(confPath: string): Result<string, VettedError> {
    if !IsPath(confPath) then Err(InvalidPath) else Ok("umask 077 && cat > " + Shq(confPath))
  }

  function Probe(host: string): Result<string, VettedError> {
    if IpToIntSafe(host) == None then Err(InvalidHost) else Ok("ping -c 1 -W 3 " + Shq(host))
  }

  predicate ValidPort(port: Option<int>) {
    port.Some? ==> 1 <= port.value <= 65535
  }

  /** The tokens of `wake`: the plain fallback without a target, else the directed packet. */
  function WakePieces(mac: string, broadcast: Option<string>, port: Option<int>): seq<Piece> {
    if broadcast.None? && port.None? then
      [Bare("wakeonlan"), Quoted(mac), Operator(OrIf), Bare("etherwake"), Quoted(mac)]
    else
      [Bare("wakeonlan")]
      + (if broadcast.Some? then [Bare("-i"), Quoted(broadcast.value)] else [])
      + (if port.Some? then [Bare("-p"), Bare(IntText(port.value))] else [])
      + [Quoted(mac)]
  }

  /** `wake` pushes token after token, quoting as it goes, then joins with spaces. */
  method Wake(mac: string, broadcast: Option<string>, port: Option<int>) returns (r: Result<string, VettedError>)
    ensures var broadcastOk := broadcast.Some? ==> IpToIntSafe(broadcast.value).Some?;
            var portOk := port.Some? ==> 1 <= port.value <= 65535;
            && (r == Err(InvalidMac) <==> !IsMac(mac))
            && (r == Err(InvalidBroadcast) <==> IsMac(mac) && !broadcastOk)
            && (r == Err(InvalidPort) <==> IsMac(mac) && broadcastOk && !portOk)
            && (r.Ok? <==> IsMac(mac) && broadcastOk && portOk)
    ensures r.Ok? && broadcast.None? && port.None? ==>
              Tokens(r.value) == Some([Word("wakeonlan"), Word(mac), OrIf, Word("etherwake"), Word(mac)])
    ensures r.Ok? && (broadcast.Some? || port.Some?) ==>
              Tokens(r.value) ==
              Some([Word("wakeonlan")]
                   + (if broadcast.Some? then [Word("-i"), Word(broadcast.value)] else [])
                   + (if port.Some? then [Word("-p"), Word(IntText(port.value))] else [])
                   + [Word(mac)])
  {
    hide Shq, IpToIntSafe, IsMac, PieceTokens, Tokens, Line, Join;
    WakeTokens(mac, broadcast, port);
    if !IsMac(mac) {
      return Err(InvalidMac);
    }
    if broadcast.None? && port.None? {
      var fallback := "wakeonlan " + Shq(mac) + " || etherwake " + Shq(mac);
      FallbackReads(mac);
      return Ok(fallback);
    }
    var parts := ["wakeonlan"];
    if broadcast.Some? {
      if IpToIntSafe(broadcast.value) == None {
        return Err(InvalidBroadcast);
      }
      parts := parts + ["-i", Shq(broadcast.value)];
    }
    if port.Some? {
      if port.value < 1 || port.value > 65535 {
        return Err(InvalidPort);
      }
      parts := parts + ["-p", IntText(port.value)];
    }
    parts := parts + [Shq(mac)];
    DirectedReads(mac, broadcast, port, parts);
    r := Ok(Join(parts, ' '));
  }

  lemma WakeTokens(mac: string, broadcast: Option<string>, port: Option<int>)
    ensures PieceTokens(WakePieces(mac, broadcast, port)) ==
            if broadcast.None? && port.None? then
              [Word("wakeonlan"), Word(mac), OrIf, Word("etherwake"), Word(mac)]
            else
              [Word("wakeonlan")]
              + (if broadcast.Some? then [Word("-i"), Word(broadcast.value)] else [])
              + (if port.Some? then [Word("-p"), Word(IntText(port.value))] else [])
              + [Word(mac)]
  {
    hide IntText, PieceTokens, Line;
    var pieces := WakePieces(mac, broadcast, port);
    if broadcast.None? && port.None? {
      Line5(Bare("wakeonlan"), Quoted(mac), Operator(OrIf), Bare("etherwake"), Quoted(mac));
    } else if broadcast.Some? && port.Some? {
      var wanted := Bare(IntText(port.value));
      Line6(Bare("wakeonlan"), Bare("-i"), Quoted(broadcast.value), Bare("-p"), wanted, Quoted(mac));
      assert pieces == [Bare("wakeonlan"), Bare("-i"), Quoted(broadcast.value), Bare("-p"), wanted, Quoted(mac)];
    } else if broadcast.Some? {
      Line4(Bare("wakeonlan"), Bare("-i"), Quoted(broadcast.value), Quoted(mac));
      assert pieces == [Bare("wakeonlan"), Bare("-i"), Quoted(broadcast.value), Quoted(mac)];
    } else {
      Line4(Bare("wakeonlan"), Bare("-p"), Bare(IntText(port.value)), Quoted(mac));
      assert pieces == [Bare("wakeonlan"), Bare("-p"), Bare(IntText(port.value)), Quoted(mac)];
    }
  }

  lemma {:induction false} JoinIsLine(pieces: seq<Piece>, parts: seq<string>)
    requires |parts| == |pieces| && forall i :: 0 <= i < |parts| ==> parts[i] == PieceText(pieces[i])
    ensures Join(parts, ' ') == Line(pieces)
  {
    hide PieceText;
    if |parts| > 1 {
      JoinIsLine(pieces[1..], parts[1..]);
    }
  }

  lemma DirectedReads(mac: string, broadcast: Option<string>, port: Option<int>, parts: seq<string>)
    requires broadcast.Some? || port.Some?
    requires ValidPort(port)
    requires parts == ["wakeonlan"] + (if broadcast.Some? then ["-i", Shq(broadcast.value)] else [])
                    + (if port.Some? then ["-p", IntText(port.value)] else []) + [Shq(mac)]
    ensures Tokens(Join(parts, ' ')) == Some(PieceTokens(WakePieces(mac, broadcast, port)))
  {
    hide Shq, ReadFrom, PieceTokens, Join, Line, IntText, AllPlain;
    var pieces := WakePieces(mac, broadcast, port);
    BareWords();
    if port.Some? {
      PortPlain(port.value);
    }
    JoinIsLine(pieces, parts);
    TokensOfLine(pieces);
  }

  lemma PortPlain(port: int)
    requires port >= 1
    ensures IntText(port) != "" && AllPlain(IntText(port))
  {
    hide Decimal;
    DecimalDigits(port);
  }

  lemma BareWords()
    ensures AllPlain("wakeonlan") && AllPlain("etherwake") && AllPlain("-i") && AllPlain("-p")
  {
  }

  // Lines of two to five pieces, spelled out.

  lemma Line2(a: Piece, b: Piece)
    ensures Line([a, b]) == PieceText(a) + " " + PieceText(b)
    ensures PieceTokens([a, b]) == [PieceToken(a), PieceToken(b)]
  {
    hide PieceText, PieceToken;
    assert [a, b][1..] == [b] && [b][1..] == [];
    assert PieceTokens([]) == [];
    assert PieceTokens([b]) == [PieceToken(b)];
  }

  lemma Line3(a: Piece, b: Piece, c: Piece)
    ensures Line([a, b, c]) == PieceText(a) + " " + PieceText(b) + " " + PieceText(c)
    ensures PieceTokens([a, b, c]) == [PieceToken(a), PieceToken(b), PieceToken(c)]
  {
    hide PieceText, PieceToken;
    assert [a, b, c][1..] == [b, c];
    Line2(b, c);
    assert PieceText(a) + " " + (PieceText(b) + " " + PieceText(c)) ==
        PieceText(a) + " " + PieceText(b) + " " + PieceText(c);
  }

  lemma Line4(a: Piece, b: Piece, c: Piece, d: Piece)
    ensures Line([a, b, c, d]) == PieceText(a) + " " + (PieceText(b) + " " + PieceText(c) + " " + PieceText(d))
    ensures PieceTokens([a, b, c, d]) == [PieceToken(a), PieceToken(b), PieceToken(c), PieceToken(d)]
  {
    hide PieceText, PieceToken;
    assert [a, b, c, d][1..] == [b, c, d];
    Line3(b, c, d);
  }

  lemma Line5(a: Piece, b: Piece, c: Piece, d: Piece, e: Piece)
    ensures Line([a, b, c, d, e]) ==
            PieceText(a) + " " + (PieceText(b) + " " + (PieceText(c) + " " + PieceText(d) + " " + PieceText(e)))
    ensures PieceTokens([a, b, c, d, e]) == [PieceToken(a), PieceToken(b), PieceToken(c), PieceToken(d), PieceToken(e)]
  {
    hide PieceText, PieceToken;
    assert [a, b, c, d, e][1..] == [b, c, d, e];
    Line4(b, c, d, e);
  }

  lemma TokensOfLine(pieces: seq<Piece>)
    requires pieces != [] && !pieces[|pieces| - 1].Operator?
    requires forall i :: 0 <= i < |pieces| ==> PieceOk(pieces[i])
    ensures Tokens(Line(pieces)) == Some(PieceTokens(pieces))
  {
    hide ReadFrom, Line, PieceTokens, PieceOk;
    LineReads([], pieces);
    assert [] + PieceTokens(pieces) == PieceTokens(pieces);
  }

  lemma FallbackReads(mac: string)
    ensures Tokens("wakeonlan " + Shq(mac) + " || etherwake " + Shq(mac)) ==
            Some(PieceTokens(WakePieces(mac, None, None)))
  {
    hide Shq, Tokens, PieceTokens, AllPlain, Line;
    BareWords();
    Line5(Bare("wakeonlan"), Quoted(mac), Operator(OrIf), Bare("etherwake"), Quoted(mac));
    TokensOfLine(WakePieces(mac, None, None));
    FallbackText(Shq(mac));
  }

  // Each template, cut at its spaces.

  lemma FallbackText(mac: string)
    ensures "wakeonlan " + mac + " || etherwake " + mac ==
            "wakeonlan" + " " + (mac + " " + ("||" + " " + "etherwake" + " " + mac))
  {
  }

  lemma ShowText(iface: string)
    ensures "wg show " + iface + " dump" == "wg" + " " + ("show" + " " + iface + " " + "dump")
  {
  }

  lemma SyncConfText(iface: string, path: string)
    ensures "wg syncconf " + iface + " " + path == "wg" + " " + ("syncconf" + " " + iface + " " + path)
  {
  }

  lemma QuickText(action: string, iface: string)
    ensures "wg-quick " + action + " " + iface == "wg-quick" + " " + action + " " + iface
  {
  }

  lemma WriteText(path: string)
    ensures "umask 077 && cat > " + path ==
            "umask" + " " + ("077" + " " + ("&&" + " " + ("cat" + " " + ">" + " " + path)))
  {
  }

  lemma ProbeText(host: string)
    ensures "ping -c 1 -W 3 " + host == "ping" + " " + ("-c" + " " + ("1" + " " + ("-W" + " " + "3" + " " + host)))
  {
  }

  // ---------------------------------------------------------------- what the commands are made of

  /** Interface names and paths that pass are of characters that mean themselves to a shell even unquoted. */
  lemma VettedArePlain(s: string)
    requires IsInterface(s) || IsPath(s)
    ensures AllPlain(s) && s != ""
    ensures IsInterface(s) ==> |s| <= 15 && '/' !in s && '.' !in s
    ensures IsPath(s) ==> s[0] == '/'
  {
  }

  /** The default interface passes, and the files of an interface that passes do as well. */
  lemma InterfaceFilesPass(iface: string)
    ensures IsInterface("wg0")
    ensures IsInterface(iface) ==>
              IsPath("/etc/wireguard/" + iface + ".conf") && IsPath("/etc/wireguard/" + iface + ".sync.conf")
  {
    if IsInterface(iface) {
      PathCat("/etc/wireguard/", iface + ".conf");
      PathCat("/etc/wireguard/", iface + ".sync.conf");
    }
  }

  lemma PathCat(directory: string, rest: string)
    requires IsPath(directory) && IsPath("/" + rest)
    ensures IsPath(directory + rest)
  {
    forall i | 0 <= i < |rest|
      ensures ("/" + rest)[i + 1] == rest[i]
    {
    }
  }

  /** `wg show` reads back as its intended argument vector. */
  lemma WgShowReads(iface: string)
    ensures !IsInterface(iface) ==> WgShow(iface) == Err(InvalidInterface)
    ensures IsInterface(iface) ==>
              WgShow(iface).Ok? &&
              Tokens(WgShow(iface).value) == Some([Word("wg"), Word("show"), Word(iface), Word("dump")])
  {
    hide Shq, IsInterface, Tokens, PieceTokens, Line;
    var pieces := [Bare("wg"), Bare("show"), Quoted(iface), Bare("dump")];
    Line4(pieces[0], pieces[1], pieces[2], pieces[3]);
    TokensOfLine(pieces);
    ShowText(Shq(iface));
  }

  lemma WgSyncConfReads(iface: string, confPath: string)
    ensures !IsInterface(iface) ==> WgSyncConf(iface, confPath) == Err(InvalidInterface)
    ensures IsInterface(iface) && !IsPath(confPath) ==> WgSyncConf(iface, confPath) == Err(InvalidPath)
    ensures IsInterface(iface) && IsPath(confPath) ==>
              WgSyncConf(iface, confPath).Ok? &&
              Tokens(WgSyncConf(iface, confPath).value) ==
                  Some([Word("wg"), Word("syncconf"), Word(iface), Word(confPath)])
  {
    hide Shq, IsInterface, IsPath, Tokens, PieceTokens, Line;
    var pieces := [Bare("wg"), Bare("syncconf"), Quoted(iface), Quoted(confPath)];
    Line4(pieces[0], pieces[1], pieces[2], pieces[3]);
    TokensOfLine(pieces);
    SyncConfText(Shq(iface), Shq(confPath));
  }

  lemma WgQuickReads(action: Action, iface: string)
    ensures !IsInterface(iface) ==> WgQuick(action, iface) == Err(InvalidInterface)
    ensures IsInterface(iface) ==>
              WgQuick(action, iface).Ok? &&
              Tokens(WgQuick(action, iface).value) ==
                  Some([Word("wg-quick"), Word(if action == Up then "up" else "down"), Word(iface)])
  {
    hide Shq, IsInterface, Tokens, PieceTokens, Line;
    var pieces := [Bare("wg-quick"), Bare(ActionText(action)), Quoted(iface)];
    Line3(pieces[0], pieces[1], pieces[2]);
    TokensOfLine(pieces);
    QuickText(ActionText(action), Shq(iface));
  }

  /** The write command is two commands and one redirection to exactly the given path. */
  lemma WriteConfigReads(confPath: string)
    ensures !IsPath(confPath) ==> WriteConfig(confPath) == Err(InvalidPath)
    ensures IsPath(confPath) ==>
              WriteConfig(confPath).Ok? &&
              Tokens(WriteConfig(confPath).value) ==
                  Some([Word("umask"), Word("077"), AndIf, Word("cat"), Great, Word(confPath)])
  {
    hide Shq, IsPath, Tokens, PieceTokens, Line;
    var pieces := [Bare("umask"), Bare("077"), Operator(AndIf), Bare("cat"), Operator(Great), Quoted(confPath)];
    Line6(pieces[0], pieces[1], pieces[2], pieces[3], pieces[4], pieces[5]);
    TokensOfLine(pieces);
    WriteText(Shq(confPath));
  }

  lemma ProbeReads(host: string)
    ensures IpToIntSafe(host) == None ==> Probe(host) == Err(InvalidHost)
    ensures IpToIntSafe(host).Some? ==>
              Probe(host).Ok? &&
              Tokens(Probe(host).value) ==
                  Some([Word("ping"), Word("-c"), Word("1"), Word("-W"), Word("3"), Word(host)])
  {
    hide Shq, IpToIntSafe, Tokens, PieceTokens, Line;
    var pieces := [Bare("ping"), Bare("-c"), Bare("1"), Bare("-W"), Bare("3"), Quoted(host)];
    Line6(pieces[0], pieces[1], pieces[2], pieces[3], pieces[4], pieces[5]);
    TokensOfLine(pieces);
    ProbeText(Shq(host));
  }

  lemma Line6(a: Piece, b: Piece, c: Piece, d: Piece, e: Piece, f: Piece)
    ensures Line([a, b, c, d, e, f]) ==
            PieceText(a) + " " +
            (PieceText(b) + " " + (PieceText(c) + " " + (PieceText(d) + " " + PieceText(e) + " " + PieceText(f))))
    ensures PieceTokens([a, b, c, d, e, f]) ==
            [PieceToken(a), PieceToken(b), PieceToken(c), PieceToken(d), PieceToken(e), PieceToken(f)]
  {
    hide PieceText, PieceToken;
    assert [a, b, c, d, e, f][1..] == [b, c, d, e, f];
    Line5(b, c, d, e, f);
  }
}
