/**
 IPv4 and CIDR arithmetic (backend/src/servers/net.ts): parsing and printing of
 dotted quads, blocks, overlap, the first-free allocator and the validator of
 operator-supplied addresses.
 */
module Net {
  import opened Wrappers
  import opened Text
  import opened Bits

  datatype NetError = InvalidPrefix | InvalidAddress | NoFreeAddress

  datatype Cidr = Cidr(base: nat, prefix: nat)

  datatype Range = Range(first: nat, last: nat)

  datatype Rejection = Malformed | OutOfRange | Reserved | InUse

  datatype AddressCheck = Accepted | Rejected(reason: Rejection)

  // ---------------------------------------------------------------- addresses

  /** One part of a dotted quad: `parseInt`, bounds, and the canonical-decimal test. */
  function Octet(part: string): Option<nat> {
    match ParseInt(part)
    case None => None
    case Some(n) => if n < 0 || n > 255 || IntText(n) != Trim(part) then None else Some(n)
  }

  /** The parts parsed one by one; None as soon as one is not an octet. */
  function Octets(parts: seq<string>): (r: Option<seq<nat>>)
    ensures r.Some? ==> |r.value| == |parts|
  {
    if parts == [] then Some([])
    else
      match (Octets(parts[..|parts| - 1]), Octet(parts[|parts| - 1]))
      case (Some(nums), Some(n)) => Some(nums + [n])
      case _ => None
  }

  function Pack(a: nat, b: nat, c: nat, d: nat): nat {
    Or(Or(Or(ShiftLeft(a, 24), ShiftLeft(b, 16)), ShiftLeft(c, 8)), d)
  }

  function IpToIntSafe(ip: string): Option<nat> {
    var parts := Split(ip, '.');
    if |parts| != 4 then None
    else
      match Octets(parts)
      case Some(nums) => Some(Pack(nums[0], nums[1], nums[2], nums[3]))
      case None => None
  }

  function OctetTexts(n: nat): seq<string> {
    [Decimal(And(ShiftRight(n, 24), 255)), Decimal(And(ShiftRight(n, 16), 255)),
     Decimal(And(ShiftRight(n, 8), 255)), Decimal(And(n, 255))]
  }

  function IntToIp(n: nat): string {
    Join(OctetTexts(n), '.')
  }

  /** A dotted quad with the white space around its four parts removed. */
  function Tidy(ip: string): string {
    Join(TrimAll(Split(ip, '.')), '.')
  }

  /** An accepted part is the canonical decimal of 0..255, up to white space around it. */
  lemma OctetExact(part: string, n: nat)
    ensures Octet(part) == Some(n) <==> n <= 255 && Trim(part) == Decimal(n)
  {
    if n <= 255 && Trim(part) == Decimal(n) {
      var pre, post := TrimParts(part);
      ParseDecimal(pre, n, post);
    }
  }

  lemma {:induction false} OctetsExact(parts: seq<string>, nums: seq<nat>)
    ensures Octets(parts) == Some(nums) <==>
            |nums| == |parts| && forall i :: 0 <= i < |parts| ==> Octet(parts[i]) == Some(nums[i])
  {
    hide Octet;
    if parts != [] {
      var init := parts[..|parts| - 1];
      if Octets(init).Some? {
        OctetsExact(init, Octets(init).value);
      }
      if nums != [] {
        OctetsExact(init, nums[..|nums| - 1]);
        assert nums == nums[..|nums| - 1] + [nums[|nums| - 1]];
      }
    }
  }

  /** The number with the four given base-256 digits. */
  function Quad(a: nat, b: nat, c: nat, d: nat): nat {
    Double(Double(Double(a, 8) + b, 8) + c, 8) + d
  }

  lemma QuadBelow(a: nat, b: nat, c: nat, d: nat)
    requires a <= 255 && b <= 255 && c <= 255 && d <= 255
    ensures Quad(a, b, c, d) < TWO32
  {
    hide Double, Pow2;
    Pow2At32();
    var ab := Double(a, 8) + b;
    var abc := Double(ab, 8) + c;
    DoubleBelow(a, 8, 8);
    DoubleBelow(ab, 16, 8);
    DoubleBelow(abc, 24, 8);
  }

  lemma OrNextOctet(high: nat, octet: nat, k: nat)
    requires octet <= 255
    ensures Or(Double(high, k + 8), Double(octet, k)) == Double(Double(high, 8) + octet, k)
  {
    DoubleBelow(octet, 8, k);
    OrDisjoint(high, k + 8, Double(octet, k));
    DoubleSum(Double(high, 8), octet, k);
    DoubleAdd(high, 8, k);
  }

  /** Shifting the octets into place and or-ing them builds the base-256 number. */
  lemma PackIsQuad(a: nat, b: nat, c: nat, d: nat)
    requires a <= 255 && b <= 255 && c <= 255 && d <= 255
    ensures Pack(a, b, c, d) == Quad(a, b, c, d) < TWO32
  {
    hide Or, Double, Pow2;
    Pow2At32();
    DoubleBelow(a, 8, 24);
    DoubleBelow(b, 8, 16);
    DoubleBelow(c, 8, 8);
    assert ShiftLeft(a, 24) == Double(a, 24) && ShiftLeft(b, 16) == Double(b, 16)
        && ShiftLeft(c, 8) == Double(c, 8) by {
      Pow2Monotone(8 + 16, 32);
      Pow2Monotone(8 + 8, 32);
    }
    OrNextOctet(a, b, 16);
    OrNextOctet(Double(a, 8) + b, c, 8);
    OrNextOctet(Double(Double(a, 8) + b, 8) + c, d, 0);
    ShiftByZero(d);
    ShiftByZero(Quad(a, b, c, d));
    QuadBelow(a, b, c, d);
  }

  /** The octet of `n` above its `k` lowest digits. */
  function OctetAt(n: nat, k: nat): (r: nat)
    ensures r <= 255
  {
    HighLow(Halve(n, k), 8);
    LowBits(Halve(n, k), 8)
  }

  lemma OctetTextsOf(n: nat)
    ensures OctetTexts(n) ==
            [Decimal(OctetAt(n, 24)), Decimal(OctetAt(n, 16)), Decimal(OctetAt(n, 8)), Decimal(OctetAt(n, 0))]
  {
    hide Decimal, And, LowBits, Align, Halve;
    AndLowMask(Halve(n, 24), 8);
    AndLowMask(Halve(n, 16), 8);
    AndLowMask(Halve(n, 8), 8);
    AndLowMask(n, 8);
    ShiftByZero(n);
    Pow2At32();
  }

  /** The octets of a base-256 number are its digits. */
  lemma OctetsOfQuad(a: nat, b: nat, c: nat, d: nat)
    requires a <= 255 && b <= 255 && c <= 255 && d <= 255
    ensures var n := Quad(a, b, c, d);
            OctetAt(n, 24) == a && OctetAt(n, 16) == b && OctetAt(n, 8) == c && OctetAt(n, 0) == d
  {
    hide Halve, LowBits, Align;
    Pow2At32();
    DoubleZero(8);
    ShiftByZero(Quad(a, b, c, d));
    var n := Quad(a, b, c, d);
    var ab := Double(a, 8) + b;
    HighLowUnique(Double(ab, 8) + c, d, 8);
    HighLowUnique(ab, c, 8);
    HighLowUnique(a, b, 8);
    HighLowUnique(0, a, 8);
    HalveAdd(n, 8, 8);
    HalveAdd(n, 16, 8);
  }

  lemma QuadText(n: nat)
    ensures IntToIp(n) ==
            Decimal(OctetAt(n, 24)) + "." +
                (Decimal(OctetAt(n, 16)) + "." + (Decimal(OctetAt(n, 8)) + "." + Decimal(OctetAt(n, 0))))
  {
    hide Decimal, OctetAt, OctetTexts;
    OctetTextsOf(n);
    JoinFour(Decimal(OctetAt(n, 24)), Decimal(OctetAt(n, 16)), Decimal(OctetAt(n, 8)), Decimal(OctetAt(n, 0)));
  }

  lemma JoinFour(a: string, b: string, c: string, d: string)
    ensures Join([a, b, c, d], '.') == a + "." + (b + "." + (c + "." + d))
  {
    assert [a, b, c, d][1..] == [b, c, d] && [b, c, d][1..] == [c, d] && [c, d][1..] == [d];
    assert Join([c, d], '.') == c + "." + d;
    assert Join([b, c, d], '.') == b + "." + (c + "." + d);
  }

  /** Every 32-bit number is the base-256 number of its octets. */
  lemma QuadOfOctets(n: nat)
    requires n < TWO32
    ensures Quad(OctetAt(n, 24), OctetAt(n, 16), OctetAt(n, 8), OctetAt(n, 0)) == n
  {
    hide Halve, LowBits, Double, Align, Pow2;
    Pow2At32();
    HalveSmall(n, 32);
    HalveAdd(n, 8, 8);
    HalveAdd(n, 16, 8);
    HalveAdd(n, 24, 8);
    HighLow(n, 8);
    HighLow(Halve(n, 8), 8);
    HighLow(Halve(n, 16), 8);
    HighLow(Halve(n, 24), 8);
    ShiftByZero(n);
    DoubleZero(8);
  }

  lemma ShiftByZero(n: nat)
    ensures Halve(n, 0) == n == Double(n, 0)
  {
  }

  lemma {:induction false} DoubleZero(k: nat)
    ensures Double(0, k) == 0
  {
    if k > 0 {
      DoubleZero(k - 1);
    }
  }

  lemma {:induction false} HalveSmall(n: nat, k: nat)
    requires n < Pow2(k)
    ensures Halve(n, k) == 0
  {
    if k > 0 {
      HalveSmall(n / 2, k - 1);
    }
  }

  lemma OctetTextsDigits(n: nat)
    ensures |OctetTexts(n)| == 4
    ensures forall i :: 0 <= i < 4 ==> AllDigits(OctetTexts(n)[i]) && Solid(OctetTexts(n)[i]) && OctetTexts(n)[i] != ""
  {
    hide Decimal, Halve, LowBits;
    OctetTextsOf(n);
    DecimalDigits(OctetAt(n, 24));
    DecimalDigits(OctetAt(n, 16));
    DecimalDigits(OctetAt(n, 8));
    DecimalDigits(OctetAt(n, 0));
  }

  lemma OctetTextsFree(n: nat)
    ensures Split(IntToIp(n), '.') == OctetTexts(n)
  {
    hide OctetTexts;
    OctetTextsDigits(n);
    SplitJoin(OctetTexts(n), '.');
  }

  /**
   The parser is exact: a text denotes `n` iff it has four parts and, with the
   white space around the parts removed, is the canonical dotted quad of `n`.
   */
  lemma ParseIsPrintInverse(ip: string, n: nat)
    ensures IpToIntSafe(ip) == Some(n) <==> n < TWO32 && |Split(ip, '.')| == 4 && Tidy(ip) == IntToIp(n)
  {
    if IpToIntSafe(ip) == Some(n) {
      ParsedPrints(ip, n);
    }
    if n < TWO32 && |Split(ip, '.')| == 4 && Tidy(ip) == IntToIp(n) {
      PrintedParses(ip, n);
    }
  }

  lemma ParsedPrints(ip: string, n: nat)
    requires IpToIntSafe(ip) == Some(n)
    ensures n < TWO32 && |Split(ip, '.')| == 4 && Tidy(ip) == IntToIp(n)
  {
    hide Octet, Octets, Pack, OctetAt, Quad, Trim, Decimal;
    var parts := Split(ip, '.');
    var nums := Octets(parts).value;
    OctetsExact(parts, nums);
    var a, b, c, d := nums[0], nums[1], nums[2], nums[3];
    OctetExact(parts[0], a);
    OctetExact(parts[1], b);
    OctetExact(parts[2], c);
    OctetExact(parts[3], d);
    PackIsQuad(a, b, c, d);
    OctetsOfQuad(a, b, c, d);
    OctetTextsOf(n);
    assert TrimAll(parts) == OctetTexts(n);
  }

  lemma PrintedParses(ip: string, n: nat)
    requires n < TWO32 && |Split(ip, '.')| == 4 && Tidy(ip) == IntToIp(n)
    ensures IpToIntSafe(ip) == Some(n)
  {
    hide Octet, Octets, Pack, OctetTexts, OctetAt, Quad, Trim, Decimal;
    var parts := Split(ip, '.');
    var tidy := TrimAll(parts);
    TrimKeepsFree(parts, '.', ip);
    SplitJoin(tidy, '.');
    OctetTextsFree(n);
    assert tidy == OctetTexts(n);
    OctetTextsOf(n);
    OctetExact(parts[0], OctetAt(n, 24));
    OctetExact(parts[1], OctetAt(n, 16));
    OctetExact(parts[2], OctetAt(n, 8));
    OctetExact(parts[3], OctetAt(n, 0));
    OctetsExact(parts, [OctetAt(n, 24), OctetAt(n, 16), OctetAt(n, 8), OctetAt(n, 0)]);
    PackIsQuad(OctetAt(n, 24), OctetAt(n, 16), OctetAt(n, 8), OctetAt(n, 0));
    QuadOfOctets(n);
  }

  lemma TrimKeepsFree(parts: seq<string>, sep: char, whole: string)
    requires parts == Split(whole, sep)
    ensures forall i :: 0 <= i < |parts| ==> sep !in Trim(parts[i])
  {
    SplitPartsFree(whole, sep);
    forall i | 0 <= i < |parts|
      ensures sep !in Trim(parts[i])
    {
      var pre, post := TrimParts(parts[i]);
    }
  }

  /** Printing then parsing gives every 32-bit address back. */
  lemma PrintParse(n: nat)
    requires n < TWO32
    ensures IpToIntSafe(IntToIp(n)) == Some(n)
  {
    hide IpToIntSafe, OctetTexts, Trim;
    OctetTextsFree(n);
    OctetTextsDigits(n);
    var parts := OctetTexts(n);
    forall i | 0 <= i < 4
      ensures Trim(parts[i]) == parts[i]
    {
      TrimSolid(parts[i]);
    }
    assert TrimAll(parts) == parts;
    ParseIsPrintInverse(IntToIp(n), n);
  }

  predicate DigitsAndDots(s: string) {
    forall i :: 0 <= i < |s| ==> IsDigit(s[i]) || s[i] == '.'
  }

  lemma IntToIpShape(n: nat)
    ensures DigitsAndDots(IntToIp(n)) && IntToIp(n) != ""
  {
    hide OctetTexts;
    OctetTextsDigits(n);
    JoinShape(OctetTexts(n));
  }

  lemma {:induction false} JoinShape(parts: seq<string>)
    requires parts != [] && forall i :: 0 <= i < |parts| ==> AllDigits(parts[i]) && parts[i] != ""
    ensures DigitsAndDots(Join(parts, '.')) && Join(parts, '.') != ""
  {
    if |parts| > 1 {
      JoinShape(parts[1..]);
    }
  }

  /** White space around an address does not change the address. */
  lemma PaddedIp(pre: string, ip: string, post: string)
    requires AllSpace(pre) && AllSpace(post)
    ensures IpToIntSafe(pre + ip + post) == IpToIntSafe(ip)
  {
    hide Split, Trim, Octet, Pack, IntToIp;
    var parts, padded := Split(ip, '.'), Split(pre + ip + post, '.');
    assert '.' !in pre && '.' !in post;
    SplitPrefix(pre, ip, '.');
    SplitSuffix(pre + ip, post, '.');
    assert |padded| == |parts|;
    forall i | 0 <= i < |parts|
      ensures Trim(padded[i]) == Trim(parts[i])
    {
      var a, b := if i == 0 then pre else "", if i == |parts| - 1 then post else "";
      assert padded[i] == a + parts[i] + b;
      TrimOuter(a, parts[i], b);
    }
    assert TrimAll(padded) == TrimAll(parts);
    SameTidySameAddress(pre + ip + post, ip);
  }

  lemma SameTidySameAddress(a: string, b: string)
    requires |Split(a, '.')| == |Split(b, '.')| && Tidy(a) == Tidy(b)
    ensures IpToIntSafe(a) == IpToIntSafe(b)
  {
    hide IpToIntSafe, Tidy, Split, IntToIp;
    if IpToIntSafe(a).Some? {
      ParseIsPrintInverse(a, IpToIntSafe(a).value);
      ParseIsPrintInverse(b, IpToIntSafe(a).value);
    } else if IpToIntSafe(b).Some? {
      ParseIsPrintInverse(a, IpToIntSafe(b).value);
      ParseIsPrintInverse(b, IpToIntSafe(b).value);
    }
  }

  /** A text that denotes an address is its canonical text exactly when it holds no white space. */
  lemma CanonicalExactly(ip: string, n: nat)
    requires IpToIntSafe(ip) == Some(n)
    ensures ip == IntToIp(n) <==> NoSpace(ip)
  {
    hide IpToIntSafe, IntToIp, Trim, IsSpace;
    if ip == IntToIp(n) {
      IntToIpShape(n);
      DigitsAreNoSpace();
    }
    if NoSpace(ip) {
      var parts := Split(ip, '.');
      SplitSpaceless(ip, '.');
      forall i | 0 <= i < |parts|
        ensures Trim(parts[i]) == parts[i]
      {
        TrimSolid(parts[i]);
      }
      assert TrimAll(parts) == parts;
      ParseIsPrintInverse(ip, n);
      JoinSplit(ip, '.');
    }
  }

  lemma DigitsAreNoSpace()
    ensures forall c: char :: IsDigit(c) || c == '.' ==> !IsSpace(c)
  {
  }

  /** Digits, dots and white space. */
  predicate AddressChars(s: string) {
    forall i :: 0 <= i < |s| ==> IsDigit(s[i]) || s[i] == '.' || IsSpace(s[i])
  }

  lemma {:induction false} JoinAddressChars(parts: seq<string>)
    requires forall i :: 0 <= i < |parts| ==> AddressChars(parts[i])
    ensures AddressChars(Join(parts, '.'))
  {
    if |parts| > 1 {
      JoinAddressChars(parts[1..]);
    }
  }

  /** A text that parses holds digits, dots and white space only, so no `/` and no `=`. */
  lemma ParsedAddressChars(ip: string)
    requires IpToIntSafe(ip).Some?
    ensures ip != "" && AddressChars(ip)
  {
    hide Octet, Octets, Pack, Trim, Decimal;
    var parts := Split(ip, '.');
    OctetsExact(parts, Octets(parts).value);
    forall i | 0 <= i < |parts|
      ensures AddressChars(parts[i])
    {
      var n := Octet(parts[i]).value;
      OctetExact(parts[i], n);
      DecimalDigits(n);
      var pre, post := TrimParts(parts[i]);
    }
    JoinAddressChars(parts);
    JoinSplit(ip, '.');
  }

  // ---------------------------------------------------------------- blocks

  function Size(c: Cidr): (r: nat)
    requires c.prefix <= 32
    ensures r >= 1
  {
    Pow2(32 - c.prefix)
  }

  /** The network mask; prefix 0 is special because a shift by 32 is a shift by 0. */
  function Mask(prefix: nat): nat
    requires prefix <= 32
  {
    if prefix == 0 then 0 else ShiftLeft(0xffff_ffff, 32 - prefix)
  }

  function ParseCidr(cidr: string): (r: Result<Cidr, NetError>)
    ensures r.Ok? ==> r.value.prefix <= 32
  {
    var parts := Split(cidr, '/');
    match if |parts| < 2 then None else ParseInt(parts[1])
    case None => Err(InvalidPrefix)
    case Some(prefix) =>
      if prefix < 0 || prefix > 32 then Err(InvalidPrefix)
      else
        match IpToIntSafe(parts[0])
        case None => Err(InvalidAddress)
        case Some(ip) => Ok(Cidr(And(ip, Mask(prefix)), prefix))
  }

  function CidrRange(c: Cidr): Range
    requires c.prefix <= 32
  {
    Range(c.base, (c.base + Size(c) - 1) % TWO32)
  }

  predicate WellFormed(c: Cidr) {
    c.prefix <= 32 && c.base < TWO32 && Aligned(c.base, 32 - c.prefix)
  }

  /** The addresses of a block, as section 3.1 of RFC 4632 reads a prefix: those that agree with the base above it. */
  predicate InBlock(n: nat, c: Cidr)
    requires c.prefix <= 32
  {
    n < TWO32 && Align(n, 32 - c.prefix) == c.base
  }

  lemma MaskIsHighMask(prefix: nat)
    requires prefix <= 32
    ensures Mask(prefix) == HighMask(32, 32 - prefix)
  {
    hide Double, Pow2;
    if prefix > 0 {
      var k := 32 - prefix;
      Pow2At32();
      OnesShifted(32, k);
    }
  }

  /** Shifting `size` ones left by `k` and dropping the overflow leaves `size - k` ones. */
  lemma OnesShifted(size: nat, k: nat)
    requires k <= size
    ensures Double(Pow2(size) - 1, k) % Pow2(size) == HighMask(size, k)
  {
    hide Double, Halve, LowBits, Pow2;
    DoubleOnes(size, k);
    DoubleOnes(k, size);
    HighLowUnique(Pow2(k) - 1, HighMask(size, k), size);
    LowBitsIsRemainder(Double(Pow2(size) - 1, k), size);
  }

  /** The shift-and-mask base is the address rounded down to a multiple of the block size. */
  lemma BaseIsRoundedDown(ip: nat, prefix: nat)
    requires ip < TWO32 && prefix <= 32
    ensures And(ip, Mask(prefix)) == Align(ip, 32 - prefix) == ip - ip % Pow2(32 - prefix)
    ensures WellFormed(Cidr(And(ip, Mask(prefix)), prefix))
  {
    Pow2At32();
    MaskIsHighMask(prefix);
    AndHighMask(ip, 32, 32 - prefix);
    LowBitsIsRemainder(ip, 32 - prefix);
    AlignTwice(ip, 32 - prefix, 32 - prefix);
  }

  /** Every parsed block is aligned and holds the address it was parsed from. */
  lemma ParsedBlock(cidr: string)
    requires ParseCidr(cidr).Ok?
    ensures |Split(cidr, '/')| >= 2 && ParseInt(Split(cidr, '/')[1]) == Some(ParseCidr(cidr).value.prefix)
    ensures WellFormed(ParseCidr(cidr).value)
    ensures IpToIntSafe(Before(cidr, '/')).Some? && InBlock(IpToIntSafe(Before(cidr, '/')).value, ParseCidr(cidr).value)
  {
    SplitHead(cidr, '/');
    var ip := IpToIntSafe(Split(cidr, '/')[0]).value;
    ParseIsPrintInverse(Split(cidr, '/')[0], ip);
    BaseIsRoundedDown(ip, ParseCidr(cidr).value.prefix);
  }

  /** `last` never wraps, and the range is exactly the block. */
  lemma RangeIsBlock(c: Cidr)
    requires WellFormed(c)
    ensures CidrRange(c) == Range(c.base, c.base + Size(c) - 1) && c.base + Size(c) <= TWO32
    ensures forall n: nat :: InBlock(n, c) <==> c.base <= n <= CidrRange(c).last
  {
    hide Align, Pow2;
    var k := 32 - c.prefix;
    Pow2At32();
    AlignedFits(c.base, k, 32);
    forall n: nat
      ensures Align(n, k) == c.base <==> c.base <= n < c.base + Pow2(k)
    {
      AlignInterval(c.base, n, k);
    }
  }

  predicate Meets(a: Range, b: Range) {
    a.first <= b.last && b.first <= a.last
  }

  ghost predicate Shares(a: Cidr, b: Cidr)
    requires a.prefix <= 32 && b.prefix <= 32
  {
    exists n: nat :: InBlock(n, a) && InBlock(n, b)
  }

  ghost predicate Within(inner: Cidr, outer: Cidr)
    requires inner.prefix <= 32 && outer.prefix <= 32
  {
    forall n: nat :: InBlock(n, inner) ==> InBlock(n, outer)
  }

  /** The shorter prefix's block contains all of the longer one or none of it. */
  lemma LaminarOrdered(a: Cidr, b: Cidr)
    requires WellFormed(a) && WellFormed(b) && a.prefix <= b.prefix
    ensures Shares(a, b) <==> InBlock(b.base, a)
    ensures InBlock(b.base, a) ==> Within(b, a)
  {
    forall n: nat | InBlock(n, b)
      ensures InBlock(n, a) <==> InBlock(b.base, a)
    {
      AlignTwice(n, 32 - b.prefix, 32 - a.prefix);
    }
    assert InBlock(b.base, b);
  }

  /** Any two blocks are nested or disjoint, and the range test decides which. */
  lemma Laminar(a: Cidr, b: Cidr)
    requires WellFormed(a) && WellFormed(b)
    ensures Within(a, b) || Within(b, a) || !Shares(a, b)
    ensures Meets(CidrRange(a), CidrRange(b)) <==> Shares(a, b)
    ensures Shares(a, b) <==> if a.prefix <= b.prefix then InBlock(b.base, a) else InBlock(a.base, b)
  {
    if a.prefix <= b.prefix {
      LaminarOrdered(a, b);
    } else {
      LaminarOrdered(b, a);
      assert Shares(a, b) <==> Shares(b, a);
    }
    RangeIsBlock(a);
    RangeIsBlock(b);
    if Meets(CidrRange(a), CidrRange(b)) {
      var n := if a.base <= b.base then b.base else a.base;
      assert InBlock(n, a) && InBlock(n, b);
    }
  }

  function CidrsOverlap(a: string, b: string): Result<bool, NetError> {
    match ParseCidr(a)
    case Err(e) => Err(e)
    case Ok(ca) =>
      match ParseCidr(b)
      case Err(e) => Err(e)
      case Ok(cb) => Ok(Meets(CidrRange(ca), CidrRange(cb)))
  }

  /** The overlap test answers exactly "some address lies in both blocks". */
  lemma OverlapExact(a: string, b: string)
    ensures CidrsOverlap(a, b).Ok? <==> ParseCidr(a).Ok? && ParseCidr(b).Ok?
    ensures CidrsOverlap(a, b).Ok? ==>
              (CidrsOverlap(a, b).value <==> Shares(ParseCidr(a).value, ParseCidr(b).value))
    ensures CidrsOverlap(a, b) == Ok(true) <==> CidrsOverlap(b, a) == Ok(true)
  {
    if ParseCidr(a).Ok? && ParseCidr(b).Ok? {
      ParsedBlock(a);
      ParsedBlock(b);
      Laminar(ParseCidr(a).value, ParseCidr(b).value);
    }
  }

  function CidrText(n: nat, prefix: nat): string {
    IntToIp(n) + "/" + Decimal(prefix)
  }

  lemma ParseCidrText(n: nat, prefix: nat)
    requires n < TWO32 && prefix <= 32
    ensures ParseCidr(CidrText(n, prefix)) == Ok(Cidr(Align(n, 32 - prefix), prefix))
  {
    IntToIpShape(n);
    DecimalDigits(prefix);
    var parts := [IntToIp(n), Decimal(prefix)];
    assert '/' !in parts[0] && '/' !in parts[1];
    SplitJoin(parts, '/');
    assert Join([IntToIp(n), Decimal(prefix)], '/') == CidrText(n, prefix) by {
      assert [IntToIp(n), Decimal(prefix)][1..] == [Decimal(prefix)];
    }
    ParseIntText(prefix);
    PrintParse(n);
    BaseIsRoundedDown(n, prefix);
  }

  function NetworkCidr(range: string): Result<string, NetError> {
    match ParseCidr(range)
    case Err(e) => Err(e)
    case Ok(c) => Ok(CidrText(c.base, c.prefix))
  }

  /** The server's own address: host .1, wrapping at 2^32. */
  function ServerAddress(range: string): Result<string, NetError> {
    match ParseCidr(range)
    case Err(e) => Err(e)
    case Ok(c) => Ok(CidrText((c.base + 1) % TWO32, c.prefix))
  }

  /** Normalising a range keeps the block and is idempotent. */
  lemma NetworkCidrSameBlock(range: string)
    requires ParseCidr(range).Ok?
    ensures ParseCidr(NetworkCidr(range).value) == ParseCidr(range)
    ensures NetworkCidr(NetworkCidr(range).value) == NetworkCidr(range)
  {
    hide IpToIntSafe, CidrText, Trim, Split;
    var c := ParseCidr(range).value;
    ParsedBlock(range);
    ParseCidrText(c.base, c.prefix);
  }

  /** The server's address is in its own network exactly when the range is not a single host. */
  lemma ServerAddressInNetwork(range: string)
    requires ParseCidr(range).Ok?
    ensures ParseCidr(ServerAddress(range).value) == ParseCidr(range) <==> ParseCidr(range).value.prefix <= 31
  {
    hide ParseCidr, CidrText;
    var c := ParseCidr(range).value;
    ParsedBlock(range);
    ParseCidrText((c.base + 1) % TWO32, c.prefix);
    NextAddressInBlock(c);
  }

  /** It is then the second address of the block. */
  lemma ServerAddressIsSecond(range: string)
    requires ParseCidr(range).Ok? && ParseCidr(range).value.prefix <= 31
    ensures IpToIntSafe(Before(ServerAddress(range).value, '/')) == Some(ParseCidr(range).value.base + 1)
  {
    hide ParseCidr, CidrText, IpToIntSafe, IntToIp, Align;
    var c := ParseCidr(range).value;
    ParsedBlock(range);
    NextAddressInBlock(c);
    CidrTextHost(c.base + 1, c.prefix);
    PrintParse(c.base + 1);
  }

  lemma CidrTextHost(n: nat, prefix: nat)
    ensures Before(CidrText(n, prefix), '/') == IntToIp(n)
  {
    hide IntToIp, Decimal;
    IntToIpShape(n);
    SplitCat(IntToIp(n), Decimal(prefix), '/');
    assert IntToIp(n) + ['/'] + Decimal(prefix) == CidrText(n, prefix);
    SplitHead(CidrText(n, prefix), '/');
    SplitHead(IntToIp(n), '/');
  }

  /** The ranges it leaves: for a range of one host, the server gets the address after that host. */
  lemma HostRangeLeavesNetwork(n: nat)
    requires n < TWO32
    ensures ServerAddress(CidrText(n, 32)) == Ok(CidrText((n + 1) % TWO32, 32))
    ensures ParseCidr(CidrText(n, 32)) == Ok(Cidr(n, 32))
    ensures ParseCidr(ServerAddress(CidrText(n, 32)).value) != ParseCidr(CidrText(n, 32))
  {
    hide ParseCidr, CidrText;
    ParseCidrText(n, 32);
    ServerAddressInNetwork(CidrText(n, 32));
  }

  lemma LoneHostServerAddress()
    ensures ServerAddress("10.0.0.1/32") == Ok("10.0.0.2/32")
    ensures ParseCidr("10.0.0.2/32") != ParseCidr("10.0.0.1/32")
  {
    hide ParseCidr, ServerAddress, CidrText;
    TenHostText(1);
    TenHostText(2);
    assert "10.0.0." + "1" + "/32" == "10.0.0.1/32" && "10.0.0." + "2" + "/32" == "10.0.0.2/32";
    HostRangeLeavesNetwork(0x0A00_0001);
  }

  lemma TenHostText(last: nat)
    requires last < 10
    ensures CidrText(0x0A00_0000 + last, 32) == "10.0.0." + [DigitChar(last)] + "/32"
  {
    hide OctetAt, Quad, IntToIp, Decimal;
    TenNumber(last);
    OctetsOfQuad(10, 0, 0, last);
    QuadText(Quad(10, 0, 0, last));
    assert Decimal(10) == "10" && Decimal(32) == "32" by { TenDigits(); }
    OneDigit(0);
    OneDigit(last);
    assert "10" + "." + ("0" + "." + ("0" + "." + [DigitChar(last)])) == "10.0.0." + [DigitChar(last)];
  }

  lemma TenDigits()
    ensures Decimal(10) == "10" && Decimal(32) == "32"
  {
  }

  lemma OneDigit(n: nat)
    requires n < 10
    ensures Decimal(n) == [DigitChar(n)]
  {
  }

  lemma TenNumber(last: nat)
    ensures Quad(10, 0, 0, last) == 0x0A00_0000 + last
  {
    hide Double;
    DoubleIsTimes(10, 8);
    DoubleIsTimes(2560, 8);
    DoubleIsTimes(655360, 8);
    assert Pow2(8) == 256;
  }

  lemma NextAddressInBlock(c: Cidr)
    requires WellFormed(c)
    ensures InBlock((c.base + 1) % TWO32, c) <==> c.prefix <= 31
    ensures c.prefix <= 31 ==> c.base + 1 < TWO32
  {
    hide Align;
    RangeIsBlock(c);
    if c.prefix <= 31 {
      Pow2Monotone(1, 32 - c.prefix);
    }
  }

  // ---------------------------------------------------------------- addresses in use

  /** The range of one "used" entry; None when it is blank, IPv6 or malformed. */
  function UsedRange(entry: string): Option<Range> {
    var trimmed := Trim(entry);
    if trimmed == "" then None
    else
      var parts := Split(trimmed, '/');
      if IpToIntSafe(parts[0]) == None then None
      else
        match ParseCidr(if |parts| == 1 then parts[0] + "/32" else trimmed)
        case Ok(c) => Some(CidrRange(c))
        case Err(_) => None
  }

  function UsedRanges(used: seq<string>): seq<Range> {
    if used == [] then []
    else
      UsedRanges(used[..|used| - 1]) +
      match UsedRange(used[|used| - 1])
      case Some(r) => [r]
      case None => []
  }

  /** A stored host address, with the mask the device table appends, covers just itself. */
  lemma StoredHostCovers(address: string, n: nat)
    requires IpToIntSafe(address) == Some(n)
    ensures UsedRange(address + "/32") == Some(Range(n, n))
  {
    hide IpToIntSafe, Split, UsedRange;
    ParsedAddressChars(address);
    var pre := TrimStartPrefix(address);
    var core := TrimStart(address);
    assert address == pre + core + "";
    PaddedIp(pre, core, "");
    ParsedAddressChars(core);
    assert address + "/32" == pre + (core + "/32") + "";
    TrimPadded(pre, core + "/32", "");
    TrimSolid(core + "/32");
    HostCidrCovers(core, n);
    SameTrimSameRange(address + "/32", core + "/32");
  }

  /** It denotes the stored host and nothing else, and nothing at all when that is no address. */
  lemma StoredHostDenotes(address: string, n: nat)
    requires '/' !in address
    ensures Denotes(address + "/32", n) <==> IpToIntSafe(address) == Some(n)
  {
    hide IpToIntSafe, Split, ParseCidr, UsedRange, InBlock;
    if IpToIntSafe(address).Some? {
      StoredHostCovers(address, IpToIntSafe(address).value);
      UsedRangeExact(address + "/32", n);
    } else {
      var pre := TrimStartPrefix(address);
      var core := TrimStart(address);
      assert address == pre + core + "";
      PaddedIp(pre, core, "");
      assert address + "/32" == pre + (core + "/32") + "";
      assert Solid(core + "/32");
      TrimPadded(pre, core + "/32", "");
      assert '/' !in core;
      SplitCat(core, "32", '/');
      assert core + ['/'] + "32" == core + "/32";
      SplitHead(core, '/');
      BlockNeedsHost(core + "/32");
    }
  }

  lemma SameTrimSameRange(a: string, b: string)
    requires Trim(a) == Trim(b)
    ensures UsedRange(a) == UsedRange(b)
  {
  }

  lemma HostCidrCovers(core: string, n: nat)
    requires IpToIntSafe(core) == Some(n) && Trim(core + "/32") == core + "/32"
    ensures UsedRange(core + "/32") == Some(Range(n, n))
  {
    hide IpToIntSafe, Split, Trim, ParseCidr, CidrRange;
    HostCidrParses(core, n);
    SingleHostRange(n);
  }

  lemma HostCidrParses(core: string, n: nat)
    requires IpToIntSafe(core) == Some(n)
    ensures n < TWO32 && Split(core + "/32", '/') == [core, "32"] && ParseCidr(core + "/32") == Ok(Cidr(n, 32))
  {
    hide IpToIntSafe, Split, ParseInt, And, Mask, Align, Pow2;
    ParsedAddressChars(core);
    ParseIsPrintInverse(core, n);
    SplitCat(core, "32", '/');
    assert core + ['/'] + "32" == core + "/32";
    SplitHead(core, '/');
    SplitHead("32", '/');
    ParseThirtyTwo();
    BaseIsRoundedDown(n, 32);
    PowZero(n);
  }

  lemma SingleHostRange(n: nat)
    requires n < TWO32
    ensures CidrRange(Cidr(n, 32)) == Range(n, n)
  {
    PowZero(n);
  }

  lemma PowZero(n: nat)
    ensures Pow2(0) == 1 && Align(n, 0) == n
  {
  }

  lemma ParseThirtyTwo()
    ensures ParseInt("32") == Some(32)
  {
    assert Decimal(32) == "32";
    ParseIntText(32);
  }

  predicate Covered(n: nat, ranges: seq<Range>) {
    exists i :: 0 <= i < |ranges| && ranges[i].first <= n <= ranges[i].last
  }

  /** The entry is the host `n`, or a block that holds `n`; a blank, IPv6 or malformed entry denotes nothing. */
  predicate Denotes(entry: string, n: nat) {
    var text := Trim(entry);
    if '/' in text then ParseCidr(text).Ok? && InBlock(n, ParseCidr(text).value) else IpToIntSafe(text) == Some(n)
  }

  predicate Holds(r: Option<Range>, n: nat) {
    r.Some? && r.value.first <= n <= r.value.last
  }

  /** The range of an entry holds exactly the addresses the entry denotes. */
  lemma UsedRangeExact(entry: string, n: nat)
    ensures Holds(UsedRange(entry), n) <==> Denotes(entry, n)
  {
    hide IpToIntSafe, ParseCidr, Split, Trim, CidrRange, InBlock;
    var text := Trim(entry);
    SplitHead(text, '/');
    NoBlankAddress();
    if '/' in text {
      BlockNeedsHost(text);
      if ParseCidr(text).Ok? {
        ParsedBlock(text);
        RangeIsBlock(ParseCidr(text).value);
      }
    } else if IpToIntSafe(text).Some? {
      HostCidrParses(text, IpToIntSafe(text).value);
      SingleHostRange(IpToIntSafe(text).value);
    }
  }

  lemma NoBlankAddress()
    ensures IpToIntSafe("") == None
  {
    hide IpToIntSafe;
    if IpToIntSafe("").Some? {
      ParsedAddressChars("");
    }
  }

  lemma BlockNeedsHost(text: string)
    ensures ParseCidr(text).Ok? ==> IpToIntSafe(Split(text, '/')[0]).Some?
  {
    hide IpToIntSafe;
  }

  /** Some "used" entry denotes `n`. */
  predicate CoveredBy(n: nat, used: seq<string>) {
    exists i :: 0 <= i < |used| && Denotes(used[i], n)
  }

  lemma {:induction false} CoveredIsCoveredBy(n: nat, used: seq<string>)
    ensures Covered(n, UsedRanges(used)) <==> CoveredBy(n, used)
  {
    hide UsedRange, Denotes;
    if used != [] {
      var init, last := used[..|used| - 1], used[|used| - 1];
      CoveredIsCoveredBy(n, init);
      UsedRangeExact(last, n);
      CoveredAppend(n, UsedRanges(init), UsedRange(last));
      if i :| 0 <= i < |used| && Denotes(used[i], n) {
        assert i < |init| ==> init[i] == used[i];
      }
      if i :| 0 <= i < |init| && Denotes(init[i], n) {
        assert used[i] == init[i];
      }
      if Denotes(last, n) {
        assert used[|used| - 1] == last;
      }
    }
  }

  lemma CoveredAppend(n: nat, before: seq<Range>, r: Option<Range>)
    ensures Covered(n, before + match r case Some(range) => [range] case None => []) <==>
            Covered(n, before) || Holds(r, n)
  {
    var after := before + match r case Some(range) => [range] case None => [];
    if i :| 0 <= i < |before| && before[i].first <= n <= before[i].last {
      assert after[i] == before[i];
    }
    if Holds(r, n) {
      assert after[|before|] == r.value;
    }
  }

  /** The source's loop over the entries. */
  method CollectUsedRanges(used: seq<string>) returns (ranges: seq<Range>)
    ensures ranges == UsedRanges(used)
  {
    hide UsedRange;
    ranges := [];
    for i := 0 to |used|
      invariant ranges == UsedRanges(used[..i])
    {
      assert used[..i + 1][..i] == used[..i];
      match UsedRange(used[i])
      case Some(r) => ranges := ranges + [r];
      case None =>
    }
    assert used[..|used|] == used;
  }

  function AddressCovered(address: string, used: seq<string>): bool {
    match IpToIntSafe(Before(address, '/'))
    case None => false
    case Some(a) => Covered(a, UsedRanges(used))
  }

  // ---------------------------------------------------------------- allocation and validation

  /** The least address of `[candidate, last)` that is neither the server's nor in use. */
  function FirstFree(candidate: nat, last: nat, server: nat, ranges: seq<Range>): (r: Option<nat>)
    ensures r.Some? ==> candidate <= r.value < last && r.value != server && !Covered(r.value, ranges)
    ensures forall n: nat :: candidate <= n < last && n != server && !Covered(n, ranges) ==> r.Some? && r.value <= n
    decreases last - candidate
  {
    if candidate >= last then None
    else if candidate == server || Covered(candidate, ranges) then FirstFree(candidate + 1, last, server, ranges)
    else Some(candidate)
  }

  function Allocated(range: string, used: seq<string>): Result<string, NetError> {
    match ParseCidr(range)
    case Err(e) => Err(e)
    case Ok(c) =>
      var block := CidrRange(c);
      match FirstFree(block.first + 2, block.last, (c.base + 1) % TWO32, UsedRanges(used))
      case Some(n) => Ok(IntToIp(n))
      case None => Err(NoFreeAddress)
  }

  /** The counting loop of the source. */
  method AllocateAddress(range: string, used: seq<string>) returns (r: Result<string, NetError>)
    ensures r == Allocated(range, used)
  {
    hide IntToIp, ParseCidr, UsedRanges;
    var parsed := ParseCidr(range);
    if parsed.Err? {
      return Err(parsed.error);
    }
    var c := parsed.value;
    var block := CidrRange(c);
    var ranges := CollectUsedRanges(used);
    var serverInt := (c.base + 1) % TWO32;
    var candidate := block.first + 2;
    while candidate < block.last
      invariant block.first + 2 <= candidate
      invariant FirstFree(block.first + 2, block.last, serverInt, ranges)
             == FirstFree(candidate, block.last, serverInt, ranges)
    {
      if candidate != serverInt && !Covered(candidate, ranges) {
        return Ok(IntToIp(candidate));
      }
      candidate := candidate + 1;
    }
    return Err(NoFreeAddress);
  }

  function AddressInRange(address: string, range: string): Result<bool, NetError> {
    match ParseCidr(range)
    case Err(e) => Err(e)
    case Ok(c) =>
      match IpToIntSafe(Before(address, '/'))
      case None => Ok(false)
      case Some(a) => Ok(CidrRange(c).first <= a <= CidrRange(c).last)
  }

  /** Membership as the source decides it is membership in the block. */
  lemma AddressInRangeExact(address: string, range: string)
    requires ParseCidr(range).Ok?
    ensures AddressInRange(address, range) == Ok(true) <==>
            IpToIntSafe(Before(address, '/')).Some? &&
            InBlock(IpToIntSafe(Before(address, '/')).value, ParseCidr(range).value)
  {
    ParsedBlock(range);
    RangeIsBlock(ParseCidr(range).value);
  }

  /** The part of an operator's text that is parsed as a host address. */
  function HostPart(address: string): string {
    Before(Trim(address), '/')
  }

  function Validate(range: string, address: string, used: seq<string>): Result<AddressCheck, NetError> {
    var parts := Split(Trim(address), '/');
    var ip := parts[0];
    if IpToIntSafe(ip) == None || (|parts| > 1 && parts[1] != "32") then Ok(Rejected(Malformed))
    else
      var a := IpToIntSafe(ip).value;
      match ParseCidr(range)
      case Err(e) => Err(e)
      case Ok(c) =>
        var block := CidrRange(c);
        if a < block.first || a > block.last then Ok(Rejected(OutOfRange))
        else if a == block.first || a == block.last || a == (c.base + 1) % TWO32 then Ok(Rejected(Reserved))
        else if AddressCovered(ip, used) then Ok(Rejected(InUse))
        else Ok(Accepted)
  }

  /** What the validator accepts, as a set of numbers. */
  predicate Assignable(n: nat, c: Cidr, used: seq<string>)
    requires c.prefix <= 32
  {
    InBlock(n, c) && n != c.base && n != c.base + 1 && n != c.base + Size(c) - 1 && !CoveredBy(n, used)
  }

  lemma ValidateExact(range: string, address: string, used: seq<string>)
    ensures Validate(range, address, used) == Ok(Accepted) <==>
            && ParseCidr(range).Ok?
            && IpToIntSafe(HostPart(address)).Some?
            && (|Split(Trim(address), '/')| > 1 ==> Split(Trim(address), '/')[1] == "32")
            && Assignable(IpToIntSafe(HostPart(address)).value, ParseCidr(range).value, used)
  {
    hide IpToIntSafe, UsedRanges, UsedRange, ParseCidr, Align, Pow2;
    SplitHead(Trim(address), '/');
    var ip := HostPart(address);
    if ParseCidr(range).Ok? && IpToIntSafe(ip).Some? {
      var a := IpToIntSafe(ip).value;
      ParsedBlock(range);
      RangeIsBlock(ParseCidr(range).value);
      SplitPartsFree(Trim(address), '/');
      SplitHead(ip, '/');
      CoveredIsCoveredBy(a, used);
    }
  }

  /** Why an address is turned down, each reason exactly; a range that does not parse throws. */
  lemma ValidateReasons(range: string, address: string, used: seq<string>)
    ensures var a := IpToIntSafe(HostPart(address));
            var oneHost := a.Some? && (|Split(Trim(address), '/')| > 1 ==> Split(Trim(address), '/')[1] == "32");
            var answer := Validate(range, address, used);
            && (answer == Ok(Rejected(Malformed)) <==> !oneHost)
            && (answer.Err? <==> oneHost && ParseCidr(range).Err?)
            && (oneHost && ParseCidr(range).Ok? ==>
                  var c := ParseCidr(range).value;
                  var reserved := a.value == c.base || a.value == c.base + 1 || a.value == c.base + Size(c) - 1;
                  && (answer == Ok(Rejected(OutOfRange)) <==> !InBlock(a.value, c))
                  && (answer == Ok(Rejected(Reserved)) <==> InBlock(a.value, c) && reserved)
                  && (answer == Ok(Rejected(InUse)) <==>
                        InBlock(a.value, c) && !reserved && CoveredBy(a.value, used)))
  {
    hide IpToIntSafe, UsedRanges, UsedRange, ParseCidr, Align, Pow2, Denotes;
    SplitHead(Trim(address), '/');
    var ip := HostPart(address);
    if ParseCidr(range).Ok? && IpToIntSafe(ip).Some? {
      var a := IpToIntSafe(ip).value;
      ParsedBlock(range);
      RangeIsBlock(ParseCidr(range).value);
      SplitPartsFree(Trim(address), '/');
      SplitHead(ip, '/');
      CoveredIsCoveredBy(a, used);
    }
  }

  lemma AllocatedExact(range: string, used: seq<string>)
    requires ParseCidr(range).Ok?
    ensures Allocated(range, used).Ok? ==>
              exists n: nat :: n < TWO32 && Allocated(range, used) == Ok(IntToIp(n))
                          && Assignable(n, ParseCidr(range).value, used)
                          && forall m: nat :: Assignable(m, ParseCidr(range).value, used) ==> n <= m
    ensures Allocated(range, used).Err? ==> forall m: nat :: !Assignable(m, ParseCidr(range).value, used)
  {
    hide IpToIntSafe, UsedRanges, UsedRange, ParseCidr, IntToIp, Align, Pow2;
    var c := ParseCidr(range).value;
    ParsedBlock(range);
    RangeIsBlock(c);
    var block := CidrRange(c);
    var r := FirstFree(block.first + 2, block.last, (c.base + 1) % TWO32, UsedRanges(used));
    forall m: nat
      ensures Assignable(m, c, used) <==>
              block.first + 2 <= m < block.last && m != (c.base + 1) % TWO32 && !Covered(m, UsedRanges(used))
    {
      CoveredIsCoveredBy(m, used);
    }
    if r.Some? {
      assert Allocated(range, used) == Ok(IntToIp(r.value));
    }
  }

  /** A canonical dotted quad is its own host part. */
  lemma CanonicalHostPart(n: nat)
    ensures Trim(IntToIp(n)) == IntToIp(n) && HostPart(IntToIp(n)) == IntToIp(n)
    ensures |Split(Trim(IntToIp(n)), '/')| == 1
  {
    IntToIpShape(n);
    TrimSolid(IntToIp(n));
    SplitHead(IntToIp(n), '/');
  }

  /** The text names the host `n`, as the validator reads it. */
  predicate Names(address: string, n: nat) {
    IpToIntSafe(HostPart(address)) == Some(n)
  }

  /**
   The allocator and the validator agree for every range and every list of used
   entries: the allocator returns the least address the validator accepts, and
   fails exactly when the validator accepts no text at all.
   */
  lemma AllocatorAgreesWithValidator(range: string, used: seq<string>)
    ensures Allocated(range, used).Ok? ==>
              exists n: nat :: && Names(Allocated(range, used).value, n)
                               && Validate(range, Allocated(range, used).value, used) == Ok(Accepted)
                               && (forall s, m: nat ::
                                     Validate(range, s, used) == Ok(Accepted) && Names(s, m) ==> n <= m)
    ensures Allocated(range, used).Err? <==> forall s :: Validate(range, s, used) != Ok(Accepted)
  {
    hide IpToIntSafe, ParseCidr, IntToIp, Validate, Assignable, HostPart, Trim, Split, UsedRange, CidrRange;
    forall s
      ensures Validate(range, s, used) == Ok(Accepted) ==>
                ParseCidr(range).Ok? && (exists m: nat :: Names(s, m) && Assignable(m, ParseCidr(range).value, used))
    {
      ValidateExact(range, s, used);
      if Validate(range, s, used) == Ok(Accepted) {
        assert Names(s, IpToIntSafe(HostPart(s)).value);
      }
    }
    if ParseCidr(range).Ok? {
      AllocatedExact(range, used);
      if Allocated(range, used).Ok? {
        var n: nat :| n < TWO32 && Allocated(range, used) == Ok(IntToIp(n))
                    && Assignable(n, ParseCidr(range).value, used)
                    && forall m: nat :: Assignable(m, ParseCidr(range).value, used) ==> n <= m;
        PrintParse(n);
        CanonicalHostPart(n);
        assert Names(IntToIp(n), n);
        ValidateExact(range, IntToIp(n), used);
      }
    }
  }
}
