/** The private-bind test on text (backend/src/config/index.ts:20-37), against the numeric blocks. */
module Bind {
  import opened Wrappers
  import opened Text
  import opened Bits
  import opened Net

  predicate StartsWith(s: string, prefix: string) {
    |s| >= |prefix| && s[..|prefix|] == prefix
  }

  /** `/^172\.(1[6-9]|2\d|3[01])\./`. */
  predicate Is172(host: string) {
    && |host| >= 7 && StartsWith(host, "172.") && host[6] == '.'
    && ((host[4] == '1' && '6' <= host[5] <= '9') || (host[4] == '2' && IsDigit(host[5]))
        || (host[4] == '3' && '0' <= host[5] <= '1'))
  }

  /** `/^f[cd][0-9a-f]{2}:/i`. */
  predicate UniqueLocal6(host: string) {
    && |host| >= 5 && (host[0] == 'f' || host[0] == 'F')
    && (host[1] == 'c' || host[1] == 'd' || host[1] == 'C' || host[1] == 'D')
    && IsHex(host[2]) && IsHex(host[3]) && host[4] == ':'
  }

  predicate IsPrivateBind(host: string) {
    || host == "localhost" || host == "::1" || host == "0.0.0.0"
    || StartsWith(host, "10.") || StartsWith(host, "192.168.") || StartsWith(host, "127.")
    || Is172(host) || UniqueLocal6(host)
  }

  // ---------------------------------------------------------------- texts and octets

  /** Two texts of digits, each followed by a dot, agree exactly when the digits do. */
  lemma {:induction false} DigitRunsAgree(a: string, b: string, rest: string)
    requires AllDigits(a) && AllDigits(b)
    ensures StartsWith(a + "." + rest, b + ".") <==> a == b
    decreases |a|
  {
    var s, p := a + "." + rest, b + ".";
    StartsWithHead(s, p);
    if a != "" && b != "" {
      DigitRunsAgree(a[1..], b[1..], rest);
      assert s[1..] == a[1..] + "." + rest && p[1..] == b[1..] + ".";
      assert a == [a[0]] + a[1..] && b == [b[0]] + b[1..];
    }
  }

  lemma StartsWithHead(s: string, p: string)
    requires s != "" && p != ""
    ensures StartsWith(s, p) <==> s[0] == p[0] && StartsWith(s[1..], p[1..])
  {
    if |s| >= |p| {
      assert s[..|p|] == [s[0]] + s[1..][..|p| - 1];
      assert p == [p[0]] + p[1..];
    }
  }

  lemma {:induction false} StartsWithSame(head: string, s: string, p: string)
    ensures StartsWith(head + s, head + p) <==> StartsWith(s, p)
  {
    if head == "" {
      assert head + s == s && head + p == p;
    } else {
      StartsWithSame(head[1..], s, p);
      StartsWithHead(head + s, head + p);
      assert (head + s)[1..] == head[1..] + s && (head + p)[1..] == head[1..] + p;
    }
  }

  /** A decimal octet in front of a dot is read by a text prefix exactly. */
  lemma PrefixIsOctet(value: nat, octet: nat, rest: string)
    ensures StartsWith(Decimal(octet) + "." + rest, Decimal(value) + ".") <==> octet == value
  {
    hide Decimal, StartsWith;
    DecimalDigits(octet);
    DecimalDigits(value);
    DigitRunsAgree(Decimal(octet), Decimal(value), rest);
    if Decimal(octet) == Decimal(value) {
      DecimalInjective(octet, value);
    }
  }

  lemma Literals()
    ensures Decimal(10) == "10" && Decimal(127) == "127" && Decimal(192) == "192" && Decimal(168) == "168"
            && Decimal(172) == "172"
    ensures Decimal(0) == "0"
  {
    TwoDigits(12);
    TwoDigits(19);
    TwoDigits(16);
    TwoDigits(17);
    assert Decimal(127) == Decimal(12) + [DigitChar(7)];
    assert Decimal(192) == Decimal(19) + [DigitChar(2)];
    assert Decimal(168) == Decimal(16) + [DigitChar(8)];
    assert Decimal(172) == Decimal(17) + [DigitChar(2)];
  }

  lemma TwoDigits(n: nat)
    requires 10 <= n < 100
    ensures Decimal(n) == [DigitChar(n / 10), DigitChar(n % 10)]
  {
  }

  lemma DecimalLength(n: nat)
    requires n <= 255
    ensures |Decimal(n)| == if n < 10 then 1 else if n < 100 then 2 else 3
  {
    if n >= 100 {
      TwoDigits(n / 10);
    } else if n >= 10 {
      TwoDigits(n);
    }
  }

  // ---------------------------------------------------------------- blocks

  /** A block of the high digits `h` over `k` others holds the numbers with those high digits. */
  lemma BlockIsHigh(n: nat, h: nat, k: nat)
    requires n < TWO32 && k <= 32
    ensures InBlock(n, Cidr(Double(h, k), 32 - k)) <==> Halve(n, k) == h
  {
    hide Halve, Double, LowBits, Align;
    HighLow(n, k);
    HighLowUnique(Halve(n, k), 0, k);
    HighLowUnique(h, 0, k);
  }

  /** The high digits of an address in terms of its first two octets. */
  lemma HighOctets(n: nat)
    requires n < TWO32
    ensures Halve(n, 24) == OctetAt(n, 24)
    ensures Halve(n, 16) == 256 * OctetAt(n, 24) + OctetAt(n, 16)
    ensures Halve(n, 20) == 16 * OctetAt(n, 24) + OctetAt(n, 16) / 16
  {
    hide Halve, LowBits, Double, Align, Pow2;
    Pow2At32();
    HighLow(Halve(n, 24), 8);
    HalveAdd(n, 24, 8);
    HalveSmall(n, 32);
    DoubleZero(8);
    HighLow(Halve(n, 16), 8);
    HalveAdd(n, 16, 8);
    EightTimes(OctetAt(n, 24));
    HalveAdd(n, 16, 4);
    FourHalves(Halve(n, 16));
  }

  lemma EightTimes(x: nat)
    ensures Double(x, 8) == 256 * x
  {
    DoubleIsTimes(x, 8);
    assert Pow2(8) == 256;
  }

  lemma FourHalves(x: nat)
    ensures Halve(x, 4) == x / 16
  {
    LowBitsIsRemainder(x, 4);
    assert Pow2(4) == 16;
  }

  lemma QuadAsHigh(a: nat, b: nat)
    ensures Quad(a, 0, 0, 0) == Double(a, 24)
    ensures Quad(a, b, 0, 0) == Double(256 * a + b, 16)
    ensures Quad(a, 16 * b, 0, 0) == Double(16 * a + b, 20)
  {
    hide Double;
    EightTimes(a);
    DoubleAdd(a, 8, 8);
    DoubleAdd(a, 16, 8);
    DoubleAdd(256 * a + b, 8, 8);
    FourTimes(16 * a + b);
    DoubleAdd(16 * a + b, 4, 8);
    DoubleAdd(16 * a + b, 12, 8);
    DoubleAdd(256 * a + 16 * b, 8, 8);
    DoubleAdd(16 * a + b, 4, 16);
  }

  lemma FourTimes(x: nat)
    ensures Double(x, 4) == 16 * x
  {
    DoubleIsTimes(x, 4);
    assert Pow2(4) == 16;
  }

  /** The blocks of section 3 of RFC 1918, and loopback, by octets. */
  lemma BlocksByOctets(n: nat)
    requires n < TWO32
    ensures InBlock(n, Cidr(Quad(10, 0, 0, 0), 8)) <==> OctetAt(n, 24) == 10
    ensures InBlock(n, Cidr(Quad(127, 0, 0, 0), 8)) <==> OctetAt(n, 24) == 127
    ensures InBlock(n, Cidr(Quad(192, 168, 0, 0), 16)) <==> OctetAt(n, 24) == 192 && OctetAt(n, 16) == 168
    ensures InBlock(n, Cidr(Quad(172, 16, 0, 0), 12)) <==> OctetAt(n, 24) == 172 && 16 <= OctetAt(n, 16) <= 31
  {
    hide Halve, Double, Quad, InBlock;
    HighOctets(n);
    QuadAsHigh(10, 0);
    QuadAsHigh(127, 0);
    QuadAsHigh(192, 168);
    QuadAsHigh(172, 1);
    BlockIsHigh(n, 10, 24);
    BlockIsHigh(n, 127, 24);
    BlockIsHigh(n, 256 * 192 + 168, 16);
    BlockIsHigh(n, 16 * 172 + 1, 20);
  }

  /** The text of a block whose last two octets are zero. */
  lemma BlockText(a: nat, b: nat, prefix: nat)
    requires a <= 255 && b <= 255 && prefix <= 32
    ensures CidrText(Quad(a, b, 0, 0), prefix) ==
            Decimal(a) + "." + (Decimal(b) + "." + ("0" + "." + "0")) + "/" + Decimal(prefix)
    ensures Quad(a, b, 0, 0) < TWO32
  {
    hide Decimal, OctetAt, Quad, IntToIp;
    QuadBelow(a, b, 0, 0);
    OctetsOfQuad(a, b, 0, 0);
    QuadText(Quad(a, b, 0, 0));
    Literals();
  }

  lemma BlockParses(a: nat, b: nat, prefix: nat, h: nat)
    requires a <= 255 && b <= 255 && prefix <= 32 && Quad(a, b, 0, 0) == Double(h, 32 - prefix)
    ensures ParseCidr(CidrText(Quad(a, b, 0, 0), prefix)) == Ok(Cidr(Quad(a, b, 0, 0), prefix))
  {
    hide ParseCidr, CidrText, Quad, Double, Align, Halve, LowBits;
    BlockText(a, b, prefix);
    ParseCidrText(Quad(a, b, 0, 0), prefix);
    HighLow(Quad(a, b, 0, 0), 32 - prefix);
    HighLowUnique(h, 0, 32 - prefix);
  }

  lemma PrivateBlocks()
    ensures ParseCidr("10.0.0.0/8") == Ok(Cidr(Quad(10, 0, 0, 0), 8))
    ensures ParseCidr("127.0.0.0/8") == Ok(Cidr(Quad(127, 0, 0, 0), 8))
    ensures ParseCidr("192.168.0.0/16") == Ok(Cidr(Quad(192, 168, 0, 0), 16))
    ensures ParseCidr("172.16.0.0/12") == Ok(Cidr(Quad(172, 16, 0, 0), 12))
  {
    hide ParseCidr, CidrText, Quad, Double;
    Literals();
    SmallLiterals();
    QuadAsHigh(10, 0);
    QuadAsHigh(127, 0);
    QuadAsHigh(192, 168);
    QuadAsHigh(172, 1);
    BlockParses(10, 0, 8, 10);
    BlockParses(127, 0, 8, 127);
    BlockParses(192, 168, 16, 256 * 192 + 168);
    BlockParses(172, 16, 12, 16 * 172 + 1);
    BlockText(10, 0, 8);
    BlockText(127, 0, 8);
    BlockText(192, 168, 16);
    BlockText(172, 16, 12);
    BlockLiterals();
  }

  lemma BlockLiterals()
    ensures "10" + "." + ("0" + "." + ("0" + "." + "0")) + "/" + "8" == "10.0.0.0/8"
    ensures "127" + "." + ("0" + "." + ("0" + "." + "0")) + "/" + "8" == "127.0.0.0/8"
    ensures "192" + "." + ("168" + "." + ("0" + "." + "0")) + "/" + "16" == "192.168.0.0/16"
    ensures "172" + "." + ("16" + "." + ("0" + "." + "0")) + "/" + "12" == "172.16.0.0/12"
  {
  }

  lemma SmallLiterals()
    ensures Decimal(8) == "8" && Decimal(16) == "16" && Decimal(12) == "12"
  {
    TwoDigits(16);
    TwoDigits(12);
  }

  // ---------------------------------------------------------------- the text test

  /** The address is one the text test accepts, by octets. */
  predicate PrivateOctets(n: nat) {
    var a, b := OctetAt(n, 24), OctetAt(n, 16);
    n == 0 || a == 10 || a == 127 || (a == 192 && b == 168) || (a == 172 && 16 <= b <= 31)
  }

  lemma NotAName(host: string)
    requires DigitsAndDots(host) && host != ""
    ensures host != "localhost" && host != "::1" && !UniqueLocal6(host)
  {
    assert "localhost"[0] == 'l' && "::1"[0] == ':';
  }

  lemma ZeroText(n: nat)
    requires n < TWO32
    ensures IntToIp(n) == "0.0.0.0" <==> n == 0
  {
    hide IntToIp, IpToIntSafe;
    PrintParse(n);
    PrintParse(0);
    ZeroPrints();
  }

  lemma ZeroPrints()
    ensures IntToIp(0) == "0.0.0.0"
  {
    hide Decimal;
    Literals();
    QuadText(0);
    assert OctetAt(0, 24) == 0 && OctetAt(0, 16) == 0 && OctetAt(0, 8) == 0 && OctetAt(0, 0) == 0 by {
      ZeroOctets();
    }
  }

  lemma ZeroOctets()
    ensures OctetAt(0, 24) == 0 && OctetAt(0, 16) == 0 && OctetAt(0, 8) == 0 && OctetAt(0, 0) == 0
  {
    hide OctetAt, Double;
    OctetsOfQuad(0, 0, 0, 0);
    DoubleZero(8);
  }

  lemma Is172Octets(b: nat, rest: string)
    requires b <= 255
    ensures Is172("172." + Decimal(b) + "." + rest) <==> 16 <= b <= 31
  {
    hide Decimal;
    var host := "172." + Decimal(b) + "." + rest;
    DecimalLength(b);
    DecimalDigits(b);
    assert host[..4] == "172.";
    assert forall i :: 0 <= i < |Decimal(b)| ==> host[4 + i] == Decimal(b)[i];
    assert host[4 + |Decimal(b)|] == '.';
    if 10 <= b < 100 {
      TwoDigits(b);
    }
  }

  lemma Prefix172(a: nat, b: nat, rest: string)
    requires a <= 255 && b <= 255
    ensures Is172(Decimal(a) + "." + (Decimal(b) + "." + rest)) <==> a == 172 && 16 <= b <= 31
  {
    hide Decimal;
    Literals();
    PrefixIsOctet(172, a, Decimal(b) + "." + rest);
    assert "172" + "." == "172.";
    if a == 172 {
      assert Decimal(a) + "." + (Decimal(b) + "." + rest) == "172." + Decimal(b) + "." + rest;
      Is172Octets(b, rest);
    }
  }

  lemma Prefix192168(a: nat, b: nat, rest: string)
    ensures StartsWith(Decimal(a) + "." + (Decimal(b) + "." + rest), "192.168.") <==> a == 192 && b == 168
  {
    hide Decimal, StartsWith;
    Literals();
    var tail := Decimal(b) + "." + rest;
    PrefixIsOctet(192, a, tail);
    PrefixIsOctet(168, b, rest);
    assert "192." + "168." == "192.168." && "192" + "." == "192." && "168" + "." == "168.";
    if a == 192 {
      StartsWithSame("192.", tail, "168.");
    } else {
      ShorterPrefix(Decimal(a) + "." + tail, "192.", "168.");
    }
  }

  lemma ShorterPrefix(s: string, p: string, q: string)
    ensures StartsWith(s, p + q) ==> StartsWith(s, p)
  {
    if StartsWith(s, p + q) {
      assert s[..|p|] == s[..|p + q|][..|p|];
    }
  }

  /** The text test, by octets. */
  lemma TextTestByOctets(n: nat)
    requires n < TWO32
    ensures IsPrivateBind(IntToIp(n)) <==> PrivateOctets(n)
  {
    hide Decimal, StartsWith, IntToIp, OctetAt, Is172, UniqueLocal6, DigitsAndDots;
    var a, b := OctetAt(n, 24), OctetAt(n, 16);
    var rest := Decimal(OctetAt(n, 8)) + "." + Decimal(OctetAt(n, 0));
    QuadText(n);
    IntToIpShape(n);
    NotAName(IntToIp(n));
    ZeroText(n);
    Literals();
    PrefixIsOctet(10, a, Decimal(b) + "." + rest);
    PrefixIsOctet(127, a, Decimal(b) + "." + rest);
    Prefix172(a, b, rest);
    Prefix192168(a, b, rest);
    assert "10" + "." == "10." && "127" + "." == "127.";
  }

  /**
   For every canonical dotted quad the text-prefix test accepts exactly 0.0.0.0,
   loopback, and the private blocks, as `addressInRange` decides membership.
   */
  lemma PrivateBindExact(n: nat)
    requires n < TWO32
    ensures IsPrivateBind(IntToIp(n)) <==>
            || n == 0
            || AddressInRange(IntToIp(n), "127.0.0.0/8") == Ok(true)
            || AddressInRange(IntToIp(n), "10.0.0.0/8") == Ok(true)
            || AddressInRange(IntToIp(n), "172.16.0.0/12") == Ok(true)
            || AddressInRange(IntToIp(n), "192.168.0.0/16") == Ok(true)
  {
    hide IsPrivateBind, IntToIp, OctetAt, AddressInRange, ParseCidr, IpToIntSafe, Quad, InBlock;
    TextTestByOctets(n);
    PrivateBlocks();
    BlocksByOctets(n);
    PrintParse(n);
    PrintedHost(n);
    AddressInRangeExact(IntToIp(n), "127.0.0.0/8");
    AddressInRangeExact(IntToIp(n), "10.0.0.0/8");
    AddressInRangeExact(IntToIp(n), "172.16.0.0/12");
    AddressInRangeExact(IntToIp(n), "192.168.0.0/16");
  }

  lemma PrintedHost(n: nat)
    ensures Before(IntToIp(n), '/') == IntToIp(n)
  {
    hide IntToIp;
    IntToIpShape(n);
    SplitHead(IntToIp(n), '/');
  }

  // ---------------------------------------------------------------- names and IPv6

  function HexDigit(c: char): (r: nat)
    requires IsHex(c)
    ensures r < 16
  {
    if IsDigit(c) then c as int - '0' as int
    else if 'a' <= c <= 'f' then c as int - 'a' as int + 10
    else c as int - 'A' as int + 10
  }

  predicate FourHex(host: string) {
    |host| >= 5 && host[4] == ':' && forall i :: 0 <= i < 4 ==> IsHex(host[i])
  }

  /** The first group of an IPv6 address written with four digits. */
  function FirstGroup(host: string): nat
    requires FourHex(host)
  {
    ((HexDigit(host[0]) * 16 + HexDigit(host[1])) * 16 + HexDigit(host[2])) * 16 + HexDigit(host[3])
  }

  /**
   A text that starts with no digit passes exactly when it is `localhost`, the
   loopback address `::1`, or starts with a full first group in fc00::/7, the
   unique-local block of section 3.1 of RFC 4193.
   */
  lemma LocalNamesExact(host: string)
    requires host != "" && !IsDigit(host[0])
    ensures IsPrivateBind(host) <==>
            || host == "localhost" || host == "::1"
            || (FourHex(host) && 0xfc00 <= FirstGroup(host) < 0xfe00)
  {
    assert "10."[0] == '1' && "192.168."[0] == '1' && "127."[0] == '1' && "172."[0] == '1' && "0.0.0.0"[0] == '0';
    if FourHex(host) {
      GroupBits(host);
    }
  }

  lemma GroupBits(host: string)
    requires FourHex(host)
    ensures 0xfc00 <= FirstGroup(host) < 0xfe00 <==> host[0] in "fF" && host[1] in "cdCD"
  {
    assert HexDigit(host[0]) == 15 <==> host[0] in "fF";
    assert HexDigit(host[1]) in {12, 13} <==> host[1] in "cdCD";
  }
}
