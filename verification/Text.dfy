/**
 The JavaScript string operations the backend leans on: `split`, `join`, `trim`,
 `Number.parseInt` and the decimal form of an integer, with the inverse laws
 that the parsers and printers of the other modules are proved from.
 */
module Text {
  import opened Wrappers

  /** WhiteSpace and LineTerminator of ECMAScript, which `trim` and `parseInt` skip. */
  predicate IsSpace(c: char) {
    || '\U{0009}' <= c <= '\U{000D}' || c == ' ' || c == '\U{00A0}' || c == '\U{1680}'
    || '\U{2000}' <= c <= '\U{200A}' || c == '\U{2028}' || c == '\U{2029}' || c == '\U{202F}'
    || c == '\U{205F}' || c == '\U{3000}' || c == '\U{FEFF}'
  }

  predicate AllSpace(s: string) {
    forall i :: 0 <= i < |s| ==> IsSpace(s[i])
  }

  predicate NoSpace(s: string) {
    forall i :: 0 <= i < |s| ==> !IsSpace(s[i])
  }

  // ---------------------------------------------------------------- split and join

  function Split(s: string, sep: char): (parts: seq<string>)
    ensures |parts| >= 1
  {
    if s == "" then [""]
    else if s[0] == sep then [""] + Split(s[1..], sep)
    else Prepend([s[0]], Split(s[1..], sep))
  }

  /** The parts with a text put in front of the first one. */
  function Prepend(pre: string, parts: seq<string>): (r: seq<string>)
    requires |parts| >= 1
    ensures |r| == |parts|
  {
    [pre + parts[0]] + parts[1..]
  }

  /** The parts with a text put behind the last one. */
  function Append(parts: seq<string>, post: string): (r: seq<string>)
    requires |parts| >= 1
    ensures |r| == |parts|
  {
    parts[..|parts| - 1] + [parts[|parts| - 1] + post]
  }

  lemma PrependCat(pre: string, a: seq<string>, b: seq<string>)
    requires |a| >= 1
    ensures Prepend(pre, a + b) == Prepend(pre, a) + b
  {
    assert (a + b)[1..] == a[1..] + b;
  }

  lemma PrependTwice(a: string, b: string, parts: seq<string>)
    requires |parts| >= 1
    ensures Prepend(a, Prepend(b, parts)) == Prepend(a + b, parts)
  {
    assert a + (b + parts[0]) == (a + b) + parts[0];
  }

  lemma PrependAppend(pre: string, parts: seq<string>, post: string)
    requires |parts| >= 1
    ensures Prepend(pre, Append(parts, post)) == Append(Prepend(pre, parts), post)
  {
    assert (pre + parts[0]) + post == pre + (parts[0] + post);
    forall i | 0 <= i < |parts|
      ensures Prepend(pre, Append(parts, post))[i] == Append(Prepend(pre, parts), post)[i]
    {
      if i == 0 {} else {}
    }
  }

  function Join(parts: seq<string>, sep: char): string {
    if |parts| == 0 then ""
    else if |parts| == 1 then parts[0]
    else parts[0] + [sep] + Join(parts[1..], sep)
  }

  /** The text before the first separator; all of it when there is none (`split(sep)[0]`). */
  function Before(s: string, sep: char): (r: string)
    ensures sep !in r
  {
    if s == "" || s[0] == sep then "" else [s[0]] + Before(s[1..], sep)
  }

  lemma {:induction false} SplitHead(s: string, sep: char)
    ensures Split(s, sep)[0] == Before(s, sep)
    ensures |Split(s, sep)| == 1 <==> sep !in s
    ensures |Split(s, sep)| == 1 ==> Split(s, sep) == [s]
  {
    if s != "" {
      SplitHead(s[1..], sep);
      assert s == [s[0]] + s[1..];
    }
  }

  /** A text with a separator, cut at the first one. */
  lemma {:induction false} CutAt(s: string, sep: char) returns (rest: string)
    requires sep in s
    ensures s == Before(s, sep) + [sep] + rest
  {
    if s[0] == sep {
      rest := s[1..];
    } else {
      assert s == [s[0]] + s[1..];
      rest := CutAt(s[1..], sep);
      assert s == [s[0]] + (Before(s[1..], sep) + [sep] + rest);
    }
  }

  lemma {:induction false} SplitPartsFree(s: string, sep: char)
    ensures forall i :: 0 <= i < |Split(s, sep)| ==> sep !in Split(s, sep)[i]
  {
    if s != "" {
      SplitPartsFree(s[1..], sep);
    }
  }

  lemma {:induction false} SplitPartsWithin(s: string, sep: char, c: char)
    requires c !in s
    ensures forall i :: 0 <= i < |Split(s, sep)| ==> c !in Split(s, sep)[i]
  {
    if s != "" {
      SplitPartsWithin(s[1..], sep, c);
    }
  }

  lemma {:induction false} SplitSpaceless(s: string, sep: char)
    requires NoSpace(s)
    ensures forall i :: 0 <= i < |Split(s, sep)| ==> NoSpace(Split(s, sep)[i])
  {
    if s != "" {
      SplitSpaceless(s[1..], sep);
    }
  }

  lemma {:induction false} JoinSplit(s: string, sep: char)
    ensures Join(Split(s, sep), sep) == s
  {
    if s != "" {
      JoinSplit(s[1..], sep);
      var rest := Split(s[1..], sep);
      if s[0] == sep {
        assert ([""] + rest)[1..] == rest;
      } else {
        assert Prepend([s[0]], rest)[1..] == rest[1..];
      }
    }
  }

  lemma {:induction false} SplitCat(a: string, b: string, sep: char)
    ensures Split(a + [sep] + b, sep) == Split(a, sep) + Split(b, sep)
  {
    hide Prepend;
    var whole := a + [sep] + b;
    if a == "" {
      assert whole[1..] == b;
    } else {
      SplitCat(a[1..], b, sep);
      assert whole[1..] == a[1..] + [sep] + b;
      var x, y := Split(a[1..], sep), Split(b, sep);
      if a[0] == sep {
        assert [""] + (x + y) == [""] + x + y;
      } else {
        PrependCat([a[0]], x, y);
      }
    }
  }

  /** Text free of separators in front of (behind) a text joins its first (last) part. */
  lemma {:induction false} SplitPrefix(pre: string, s: string, sep: char)
    requires sep !in pre
    ensures Split(pre + s, sep) == Prepend(pre, Split(s, sep))
  {
    if pre == "" {
      assert pre + s == s;
      var parts := Split(s, sep);
      assert "" + parts[0] == parts[0];
      assert Prepend("", parts) == parts;
    } else {
      assert (pre + s)[1..] == pre[1..] + s;
      SplitPrefix(pre[1..], s, sep);
      PrependTwice([pre[0]], pre[1..], Split(s, sep));
      assert [pre[0]] + pre[1..] == pre;
    }
  }

  lemma {:induction false} SplitSuffix(s: string, post: string, sep: char)
    requires sep !in post
    ensures Split(s + post, sep) == Append(Split(s, sep), post)
  {
    if s == "" {
      assert s + post == post;
      SplitHead(post, sep);
    } else {
      assert (s + post)[1..] == s[1..] + post;
      SplitSuffix(s[1..], post, sep);
      var rest := Split(s[1..], sep);
      if s[0] == sep {
        assert [""] + Append(rest, post) == Append([""] + rest, post);
      } else {
        PrependAppend([s[0]], rest, post);
      }
    }
  }

  function Flatten(parts: seq<string>, sep: char): seq<string> {
    if parts == [] then [] else Split(parts[0], sep) + Flatten(parts[1..], sep)
  }

  /** Splitting joined parts splits each part in place. */
  lemma {:induction false} SplitJoinFlatten(parts: seq<string>, sep: char)
    requires parts != []
    ensures Split(Join(parts, sep), sep) == Flatten(parts, sep)
  {
    if |parts| == 1 {
      assert Flatten(parts[1..], sep) == [];
    } else {
      SplitJoinFlatten(parts[1..], sep);
      SplitCat(parts[0], Join(parts[1..], sep), sep);
    }
  }

  predicate Free(parts: seq<string>, sep: char) {
    forall i :: 0 <= i < |parts| ==> sep !in parts[i]
  }

  lemma {:induction false} FlattenFree(parts: seq<string>, sep: char)
    requires Free(parts, sep)
    ensures Flatten(parts, sep) == parts
  {
    hide Split;
    if parts != [] {
      SplitHead(parts[0], sep);
      FlattenFree(parts[1..], sep);
    }
  }

  lemma {:induction false} FlattenCat(a: seq<string>, b: seq<string>, sep: char)
    ensures Flatten(a + b, sep) == Flatten(a, sep) + Flatten(b, sep)
  {
    hide Split;
    if a == [] {
      assert a + b == b;
    } else {
      FlattenCat(a[1..], b, sep);
      assert (a + b)[1..] == a[1..] + b;
      var x, y, z := Split(a[0], sep), Flatten(a[1..], sep), Flatten(b, sep);
      assert x + (y + z) == x + y + z;
    }
  }

  /** `join` then `split` gives the parts back when none holds the separator. */
  lemma SplitJoin(parts: seq<string>, sep: char)
    requires parts != [] && Free(parts, sep)
    ensures Split(Join(parts, sep), sep) == parts
  {
    SplitJoinFlatten(parts, sep);
    FlattenFree(parts, sep);
  }

  // ---------------------------------------------------------------- trim

  function TrimStart(s: string): string {
    if s != "" && IsSpace(s[0]) then TrimStart(s[1..]) else s
  }

  function TrimEnd(s: string): string {
    if s != "" && IsSpace(s[|s| - 1]) then TrimEnd(s[..|s| - 1]) else s
  }

  function Trim(s: string): string {
    TrimEnd(TrimStart(s))
  }

  /** Neither end of the text is white space. */
  predicate Solid(s: string) {
    s != "" ==> !IsSpace(s[0]) && !IsSpace(s[|s| - 1])
  }

  lemma {:induction false} TrimStartPad(pad: string, s: string)
    requires AllSpace(pad)
    ensures TrimStart(pad + s) == TrimStart(s)
  {
    if pad == "" {
      assert pad + s == s;
    } else {
      assert (pad + s)[1..] == pad[1..] + s;
      TrimStartPad(pad[1..], s);
    }
  }

  lemma {:induction false} TrimEndPad(s: string, pad: string)
    requires AllSpace(pad)
    ensures TrimEnd(s + pad) == TrimEnd(s)
  {
    if pad == "" {
      assert s + pad == s;
    } else {
      var n := |pad| - 1;
      assert (s + pad)[..|s + pad| - 1] == s + pad[..n];
      TrimEndPad(s, pad[..n]);
    }
  }

  /** Trimming removes exactly the padding around a text with solid ends. */
  lemma TrimPadded(pre: string, s: string, post: string)
    requires AllSpace(pre) && AllSpace(post) && Solid(s)
    ensures Trim(pre + s + post) == s
    ensures s != "" ==> TrimStart(pre + s + post) == s + post
  {
    assert pre + s + post == pre + (s + post);
    TrimStartPad(pre, s + post);
    if s == "" {
      assert s + post == post + "";
      TrimStartPad(post, "");
    } else {
      assert TrimStart(s + post) == s + post;
      TrimEndPad(s, post);
    }
  }

  lemma TrimSolid(s: string)
    requires Solid(s)
    ensures Trim(s) == s
  {
    assert "" + s + "" == s;
    TrimPadded("", s, "");
  }

  lemma {:induction false} TrimStartPrefix(s: string) returns (pre: string)
    ensures AllSpace(pre) && s == pre + TrimStart(s)
    ensures TrimStart(s) != "" ==> !IsSpace(TrimStart(s)[0])
  {
    if s != "" && IsSpace(s[0]) {
      var rest := TrimStartPrefix(s[1..]);
      pre := [s[0]] + rest;
      assert s == [s[0]] + s[1..];
    } else {
      pre := "";
    }
  }

  lemma {:induction false} TrimEndSuffix(s: string) returns (post: string)
    ensures AllSpace(post) && s == TrimEnd(s) + post
    ensures TrimEnd(s) != "" ==> !IsSpace(TrimEnd(s)[|TrimEnd(s)| - 1])
  {
    if s != "" && IsSpace(s[|s| - 1]) {
      var rest := TrimEndSuffix(s[..|s| - 1]);
      post := rest + [s[|s| - 1]];
      assert s == s[..|s| - 1] + [s[|s| - 1]];
    } else {
      post := "";
    }
  }

  /** Every text is white space, its trimmed core, white space. */
  lemma TrimParts(s: string) returns (pre: string, post: string)
    ensures AllSpace(pre) && AllSpace(post) && s == pre + Trim(s) + post && Solid(Trim(s))
  {
    pre := TrimStartPrefix(s);
    post := TrimEndSuffix(TrimStart(s));
    assert s == pre + (Trim(s) + post);
    if Trim(s) != "" {
      assert TrimStart(s)[0] == Trim(s)[0];
    }
  }

  function TrimAll(parts: seq<string>): (r: seq<string>)
    ensures |r| == |parts| && forall i :: 0 <= i < |parts| ==> r[i] == Trim(parts[i])
  {
    seq(|parts|, i requires 0 <= i < |parts| => Trim(parts[i]))
  }

  /** Trimming keeps a last character that is not white space. */
  lemma {:induction false} TrimKeepsLast(s: string)
    requires s != "" && !IsSpace(s[|s| - 1])
    ensures Trim(s) != "" && Trim(s)[|Trim(s)| - 1] == s[|s| - 1]
  {
    if IsSpace(s[0]) {
      TrimKeepsLast(s[1..]);
    }
  }

  /** Padding a text does not change what trimming leaves of it. */
  lemma TrimOuter(pre: string, s: string, post: string)
    requires AllSpace(pre) && AllSpace(post)
    ensures Trim(pre + s + post) == Trim(s)
  {
    var a, b := TrimParts(s);
    assert pre + s + post == (pre + a) + Trim(s) + (b + post);
    TrimPadded(pre + a, Trim(s), b + post);
  }

  /** `filter(Boolean)` on texts. */
  function NonBlank(parts: seq<string>): seq<string> {
    if parts == [] then []
    else NonBlank(parts[..|parts| - 1]) + (if parts[|parts| - 1] != "" then [parts[|parts| - 1]] else [])
  }

  lemma {:induction false} NonBlankKeeps(parts: seq<string>)
    requires forall i :: 0 <= i < |parts| ==> parts[i] != ""
    ensures NonBlank(parts) == parts
  {
    if parts != [] {
      NonBlankKeeps(parts[..|parts| - 1]);
    }
  }

  lemma {:induction false} NonBlankExact(parts: seq<string>, part: string)
    ensures part in NonBlank(parts) <==> part in parts && part != ""
  {
    if parts != [] {
      NonBlankExact(parts[..|parts| - 1], part);
      assert parts == parts[..|parts| - 1] + [parts[|parts| - 1]];
    }
  }

  // ---------------------------------------------------------------- numbers

  predicate IsDigit(c: char) {
    '0' <= c <= '9'
  }

  predicate AllDigits(s: string) {
    forall i :: 0 <= i < |s| ==> IsDigit(s[i])
  }

  function DigitChar(d: nat): (c: char)
    requires d < 10
    ensures IsDigit(c)
  {
    ('0' as int + d) as char
  }

  function DigitValue(c: char): nat {
    if IsDigit(c) then c as int - '0' as int else 0
  }

  /** `String(n)` of a non-negative integer. */
  function Decimal(n: nat): (s: string)
    ensures s != ""
  {
    if n < 10 then [DigitChar(n)] else Decimal(n / 10) + [DigitChar(n % 10)]
  }

  /** `String(n)` of any integer. */
  function IntText(n: int): string {
    if n < 0 then "-" + Decimal(-n) else Decimal(n)
  }

  /** The number a run of digits denotes. */
  function Value(digits: string): nat {
    if digits == "" then 0
    else 10 * Value(digits[..|digits| - 1]) + DigitValue(digits[|digits| - 1])
  }

  function DigitPrefix(s: string): string {
    if s != "" && IsDigit(s[0]) then [s[0]] + DigitPrefix(s[1..]) else ""
  }

  /**
   `Number.parseInt(s, 10)`: white space, an optional sign, then the longest run
   of digits; anything after it is ignored and no digit at all is NaN (None).
   */
  function ParseInt(s: string): Option<int> {
    var t := TrimStart(s);
    var negative := t != "" && t[0] == '-';
    var u := if t != "" && (t[0] == '-' || t[0] == '+') then t[1..] else t;
    var digits := DigitPrefix(u);
    if digits == "" then None
    else if negative then Some(-(Value(digits) as int))
    else Some(Value(digits))
  }

  lemma {:induction false} DecimalDigits(n: nat)
    ensures AllDigits(Decimal(n)) && NoSpace(Decimal(n)) && Solid(Decimal(n))
  {
    if n >= 10 {
      DecimalDigits(n / 10);
    }
  }

  lemma {:induction false} ValueDecimal(n: nat)
    ensures Value(Decimal(n)) == n
  {
    if n < 10 {
      assert [DigitChar(n)][..0] == "";
    } else {
      ValueDecimal(n / 10);
      assert Decimal(n)[..|Decimal(n)| - 1] == Decimal(n / 10);
    }
  }

  lemma DecimalInjective(m: nat, n: nat)
    requires Decimal(m) == Decimal(n)
    ensures m == n
  {
    ValueDecimal(m);
    ValueDecimal(n);
  }

  lemma {:induction false} DigitPrefixOf(digits: string, rest: string)
    requires AllDigits(digits) && (rest == "" || !IsDigit(rest[0]))
    ensures DigitPrefix(digits + rest) == digits
  {
    if digits == "" {
      assert digits + rest == rest;
    } else {
      assert (digits + rest)[1..] == digits[1..] + rest;
      DigitPrefixOf(digits[1..], rest);
    }
  }

  /** `parseInt` reads back a printed number, whatever non-digit text follows it. */
  lemma ParseDecimal(pre: string, n: nat, rest: string)
    requires AllSpace(pre) && (rest == "" || !IsDigit(rest[0]))
    ensures ParseInt(pre + Decimal(n) + rest) == Some(n)
  {
    var d := Decimal(n);
    assert pre + d + rest == pre + (d + rest);
    TrimStartPad(pre, d + rest);
    DecimalDigits(n);
    assert TrimStart(d + rest) == d + rest;
    DigitPrefixOf(d, rest);
    ValueDecimal(n);
  }

  /** `parseInt(String(n)) == n` for every integer, surrounding white space included. */
  lemma ParseIntText(n: int)
    ensures ParseInt(IntText(n)) == Some(n)
  {
    if n < 0 {
      var d := Decimal(-n);
      DecimalDigits(-n);
      assert ("-" + d)[1..] == d;
      assert d + "" == d;
      DigitPrefixOf(d, "");
      ValueDecimal(-n);
    } else {
      assert "" + Decimal(n) + "" == Decimal(n);
      ParseDecimal("", n, "");
    }
  }

  // ---------------------------------------------------------------- case

  /** `toLowerCase` on the ASCII letters, the only ones that matter to the keys compared. */
  function Lower(s: string): (r: string)
    ensures |r| == |s|
  {
    seq(|s|, i requires 0 <= i < |s| => LowerChar(s[i]))
  }

  function LowerChar(c: char): char {
    if 'A' <= c <= 'Z' then (c as int + 32) as char else c
  }

  // ---------------------------------------------------------------- hardware addresses

  predicate IsHex(c: char) {
    IsDigit(c) || 'a' <= c <= 'f' || 'A' <= c <= 'F'
  }

  /** Six hex pairs separated by `:` or `-`. */
  predicate IsMac(s: string) {
    |s| == 17 && forall i :: 0 <= i < 17 ==> if i % 3 == 2 then s[i] == ':' || s[i] == '-' else IsHex(s[i])
  }

  /** Six pairs of hex digits with a dash or colon between any two: what the text is once it is cut there. */
  predicate SixPairs(parts: seq<string>) {
    |parts| == 6 && forall i :: 0 <= i < 6 ==> |parts[i]| == 2 && IsHex(parts[i][0]) && IsHex(parts[i][1])
  }

  /** The text with colons for dashes. */
  function Colons(s: string): (r: string)
    ensures |r| == |s|
  {
    seq(|s|, i requires 0 <= i < |s| => if s[i] == '-' then ':' else s[i])
  }

  lemma MacExact(s: string)
    ensures IsMac(s) <==> SixPairs(Split(Colons(s), ':'))
  {
    hide Split, Join;
    var t := Colons(s);
    if IsMac(s) {
      var parts := [t[..2], t[3..5], t[6..8], t[9..11], t[12..14], t[15..]];
      SixJoined(t[..2], t[3..5], t[6..8], t[9..11], t[12..14], t[15..]);
      CutInSix(t);
      SplitJoin(parts, ':');
    }
    if SixPairs(Split(t, ':')) {
      var p := Split(t, ':');
      JoinSplit(t, ':');
      SixJoined(p[0], p[1], p[2], p[3], p[4], p[5]);
      assert p == [p[0], p[1], p[2], p[3], p[4], p[5]];
      PairsAt(p[0], p[1], p[2], p[3], p[4], p[5], t);
      forall i | 0 <= i < 17
        ensures if i % 3 == 2 then s[i] == ':' || s[i] == '-' else IsHex(s[i])
      {
        assert t[i] == if s[i] == '-' then ':' else s[i];
      }
    }
  }

  lemma CutInSix(t: string)
    requires |t| == 17 && forall i :: 0 <= i < 17 && i % 3 == 2 ==> t[i] == ':'
    ensures t == t[..2] + ":" + (t[3..5] + ":" + (t[6..8] + ":" + (t[9..11] + ":" + (t[12..14] + ":" + t[15..]))))
  {
  }

  lemma PairsAt(a: string, b: string, c: string, d: string, e: string, f: string, t: string)
    requires SixPairs([a, b, c, d, e, f]) && t == a + ":" + (b + ":" + (c + ":" + (d + ":" + (e + ":" + f))))
    ensures |t| == 17 && forall i :: 0 <= i < 17 ==> if i % 3 == 2 then t[i] == ':' else IsHex(t[i])
  {
    var parts := [a, b, c, d, e, f];
    assert |parts[0]| == |parts[1]| == |parts[2]| == |parts[3]| == |parts[4]| == |parts[5]| == 2;
    forall i | 0 <= i < 17
      ensures if i % 3 == 2 then t[i] == ':' else IsHex(t[i])
    {
      assert IsHex(parts[i / 3][0]) && IsHex(parts[i / 3][1]);
    }
  }

  lemma JoinStep(head: string, rest: seq<string>, sep: char)
    requires rest != []
    ensures Join([head] + rest, sep) == head + [sep] + Join(rest, sep)
  {
    assert ([head] + rest)[1..] == rest;
  }

  lemma SixJoined(a: string, b: string, c: string, d: string, e: string, f: string)
    ensures Join([a, b, c, d, e, f], ':') ==
            a + ":" + (b + ":" + (c + ":" + (d + ":" + (e + ":" + f))))
  {
    hide Join;
    JoinStep(a, [b, c, d, e, f], ':');
    JoinStep(b, [c, d, e, f], ':');
    JoinStep(c, [d, e, f], ':');
    JoinStep(d, [e, f], ':');
    JoinStep(e, [f], ':');
    assert Join([f], ':') == f by { JoinOne(f, ':'); }
    assert [a, b, c, d, e, f] == [a] + [b, c, d, e, f] && [b, c, d, e, f] == [b] + [c, d, e, f];
    assert [c, d, e, f] == [c] + [d, e, f] && [d, e, f] == [d] + [e, f] && [e, f] == [e] + [f];
  }

  lemma JoinOne(part: string, sep: char)
    ensures Join([part], sep) == part
  {
  }
}
