/** Internet addresses and masks: the helpers of utils.cpp and the VAL_TO_MASK macro.

  A `uint32_t` holding an address in network order is a `bv32` as a little-endian machine loads it: the first
  byte of the address is the lowest.
  */
module Inet {

  const FAILED: bv32 := 0xffff_ffff

  /** ntohl and htonl */
  function Ntohl(x: bv32): bv32 {
    ((x & 0xff) << 24) | ((x & 0xff00) << 8) | ((x >> 8) & 0xff00) | (x >> 24)
  }

  lemma NtohlInvolution(x: bv32)
    ensures Ntohl(Ntohl(x)) == x
  {
  }

  // ---------------------------------------------------------------- address classes, on host order

  predicate InClassA(a: bv32) { a & 0x8000_0000 == 0 }
  predicate InClassB(a: bv32) { a & 0xc000_0000 == 0x8000_0000 }
  predicate InMulticast(a: bv32) { a & 0xf000_0000 == 0xe000_0000 }
  predicate InBadClass(a: bv32) { a & 0xf000_0000 == 0xf000_0000 }

  /** inet_valid_host: from 1.0.0.0 up to but not including 224.0.0.0. */
  predicate InetValidHost(naddr: bv32)
    ensures InetValidHost(naddr) <==> 0x0100_0000 <= Ntohl(naddr) < 0xe000_0000
  {
    var addr := Ntohl(naddr);
    !(InMulticast(addr) || InBadClass(addr) || addr & 0xff00_0000 == 0)
  }

  // ---------------------------------------------------------------- masks

  /** `1 << k`; the bit shifted out at `k == 32` leaves 0. */
  function One(k: nat): bv32 {
    if k == 0 then 1 else One(k - 1) << 1
  }

  /** The mask in host order with zeros in bits 0 to k-1 and ones above: `2^32 - 2^k`. */
  function MaskFrom(k: nat): bv32 {
    0 - One(k)
  }

  /** inet_valid_mask */
  predicate InetValidMask(mask: bv32) {
    !(((mask & -mask) - 1) | mask) == 0
  }

  predicate Bit(mask: bv32, k: nat) {
    mask & One(k) != 0
  }

  /** Bits `lo` up to but not including `hi` of `mask` all equal `v`. */
  ghost predicate Uniform(mask: bv32, lo: nat, hi: nat, v: bool)
    requires lo <= hi
  {
    lo == hi || (Bit(mask, hi - 1) == v && Uniform(mask, lo, hi - 1, v))
  }

  /** `x` is a single bit, or 0 once shifted out. */
  predicate Single(x: bv32) {
    x & (x - 1) == 0
  }

  lemma {:induction false} OneSingle(k: nat)
    ensures Single(One(k))
    ensures One(k) == 0 ==> One(k + 1) == 0
  {
    if k > 0 { OneSingle(k - 1); }
  }

  lemma OneRange(k: nat)
    ensures One(k) != 0 <==> k < 32
  {
    assert One(8) == 0x100;
    assert One(16) == 0x1_0000;
    assert One(24) == 0x100_0000;
    assert One(31) == 0x8000_0000;
    if k < 32 { OneNonzero(k, 31); } else { OneNonzero(32, k); }
  }

  lemma {:induction false} OneNonzero(i: nat, j: nat)
    requires i <= j
    ensures One(i) == 0 ==> One(j) == 0
  {
    if i < j {
      OneNonzero(i, j - 1);
    }
  }

  /** Zeros below `p` and ones from there up to `q`, both single bits, put as one comparison of words. */
  predicate Shape(mask: bv32, p: bv32, q: bv32) {
    mask & (q - 1) == (0 - p) & (q - 1)
  }

  lemma ShapeStep(mask: bv32, p: bv32, q: bv32)
    requires Single(p) && Single(q) && q != 0 && Shape(mask, p, q)
    ensures mask & q == 0 && p == q ==> Shape(mask, q << 1, q << 1)
    ensures mask & q != 0 && 0 < p <= q ==> Shape(mask, p, q << 1)
  {
  }

  lemma StepLow(mask: bv32, k: nat)
    requires k < 32 && Shape(mask, One(k), One(k)) && !Bit(mask, k)
    ensures Shape(mask, One(k + 1), One(k + 1))
  {
    OneSingle(k);
    OneRange(k);
    ShapeStep(mask, One(k), One(k));
  }

  lemma StepUp(mask: bv32, lo: nat, k: nat)
    requires lo <= k < 32 && Shape(mask, One(lo), One(k)) && Bit(mask, k)
    ensures Shape(mask, One(lo), One(k + 1))
  {
    OneSingle(lo);
    OneSingle(k);
    OneGrows(lo, k);
    ShapeStep(mask, One(lo), One(k));
  }

  lemma {:induction false} OneGrows(i: nat, j: nat)
    requires i <= j < 32
    ensures 0 < One(i) <= One(j)
    ensures i < j ==> One(i) < One(j)
  {
    OneRange(i);
    if i < j {
      OneGrows(i, j - 1);
      OneSingle(j - 1);
      OneRange(j);
      Doubled(One(j - 1));
    }
  }

  lemma Doubled(x: bv32)
    requires Single(x) && x << 1 != 0
    ensures x < x << 1
  {
  }

  lemma {:induction false} ShapeLow(mask: bv32, lo: nat)
    requires lo <= 32 && Uniform(mask, 0, lo, false)
    ensures Shape(mask, One(lo), One(lo))
  {
    if lo > 0 {
      ShapeLow(mask, lo - 1);
      StepLow(mask, lo - 1);
    }
  }

  lemma {:induction false} ShapeUp(mask: bv32, lo: nat, hi: nat)
    requires lo <= hi <= 32 && Uniform(mask, 0, lo, false) && Uniform(mask, lo, hi, true)
    ensures Shape(mask, One(lo), One(hi))
  {
    if lo == hi {
      ShapeLow(mask, lo);
    } else {
      ShapeUp(mask, lo, hi - 1);
      StepUp(mask, lo, hi - 1);
    }
  }

  /** The lowest one bit; 32 for the empty mask. */
  lemma LowestBit(mask: bv32) returns (k: nat)
    ensures k <= 32 && Uniform(mask, 0, k, false)
    ensures k < 32 ==> Bit(mask, k)
  {
    k := 0;
    while k < 32 && !Bit(mask, k)
      invariant k <= 32 && Uniform(mask, 0, k, false)
    {
      k := k + 1;
    }
  }

  /** inet_valid_mask accepts exactly the masks 2^32 - 2^k, k in 0..32, including the empty one. */
  lemma ValidMaskIff(mask: bv32)
    ensures InetValidMask(mask) <==> exists k: nat :: k <= 32 && mask == MaskFrom(k)
  {
    if InetValidMask(mask) {
      var k := LowestBit(mask);
      ShapeLow(mask, k);
      OneSingle(k);
      OneRange(k);
      LowestDecides(mask, One(k));
      assert mask == MaskFrom(k);
    }
    forall k: nat | k <= 32 && mask == MaskFrom(k) ensures InetValidMask(mask) {
      OneSingle(k);
      NegatedBit(One(k));
    }
  }

  lemma LowestDecides(mask: bv32, p: bv32)
    requires Single(p) && Shape(mask, p, p) && (p != 0 ==> mask & p != 0) && InetValidMask(mask)
    ensures mask == 0 - p
  {
  }

  lemma NegatedBit(p: bv32)
    requires Single(p)
    ensures InetValidMask(0 - p)
  {
  }

  /** The shift in VAL_TO_MASK is defined for these lengths. */
  predicate MaskLength(i: nat) {
    1 <= i <= 32
  }

  /** VAL_TO_MASK, in network order. */
  function ValToMask(i: nat): bv32
    requires MaskLength(i)
  {
    Ntohl(!(One(32 - i) - 1))
  }

  lemma ValToMaskIs(i: nat)
    requires MaskLength(i)
    ensures Ntohl(ValToMask(i)) == MaskFrom(32 - i) != 0
  {
    NtohlInvolution(!(One(32 - i) - 1));
    NotMinusOne(One(32 - i));
    OneRange(32 - i);
  }

  lemma NotMinusOne(x: bv32)
    ensures !(x - 1) == 0 - x
  {
  }

  /** VAL_TO_MASK reaches every non-empty contiguous mask, and nothing else. */
  lemma ValToMaskIff(mask: bv32)
    ensures InetValidMask(Ntohl(mask)) && mask != 0 <==> exists i: nat :: MaskLength(i) && mask == ValToMask(i)
  {
    NtohlInvolution(mask);
    ValidMaskIff(Ntohl(mask));
    if InetValidMask(Ntohl(mask)) && mask != 0 {
      var k: nat :| k <= 32 && Ntohl(mask) == MaskFrom(k);
      OneRange(k);
      assert MaskLength(32 - k);
      ValToMaskIs(32 - k);
      NtohlInvolution(ValToMask(32 - k));
      assert mask == ValToMask(32 - k);
    }
    forall i: nat | MaskLength(i) && mask == ValToMask(i) ensures InetValidMask(Ntohl(mask)) && mask != 0 {
      ValToMaskIs(i);
    }
  }

  function Forgemask(a: bv32): bv32 {
    if InClassA(a) then 0xff00_0000 else if InClassB(a) then 0xffff_0000 else 0xffff_ff00
  }

  /** The masks of classes A, B and C, which domask leaves out. */
  lemma ForgemaskIs(a: bv32)
    ensures Forgemask(a) == if a < 0x8000_0000 then 0xff00_0000 else if a < 0xc000_0000 then 0xffff_0000 else 0xffff_ff00
  {
  }

  lemma MulticastRange(a: bv32)
    ensures InMulticast(a) <==> 0xe000_0000 <= a < 0xf000_0000
  {
  }

  lemma Hole(mask: bv32, lo: nat, hi: nat)
    requires lo < hi < 32 && Uniform(mask, 0, lo, false) && Uniform(mask, lo, hi, true) && !Bit(mask, hi)
    ensures !InetValidMask(mask)
  {
    ShapeUp(mask, lo, hi);
    Ordered(lo, hi);
    HoleBits(mask, One(lo), One(hi));
  }

  lemma Ordered(i: nat, j: nat)
    requires i < j < 32
    ensures Single(One(i)) && Single(One(j)) && 0 < One(i) < One(j)
  {
    OneSingle(i);
    OneSingle(j);
    OneGrows(i, j);
  }

  lemma HoleBits(mask: bv32, p: bv32, q: bv32)
    requires Single(p) && Single(q) && 0 < p < q && Shape(mask, p, q) && mask & q == 0
    ensures !InetValidMask(mask)
  {
  }

  lemma NoHole(mask: bv32, lo: nat)
    requires lo < 32 && Uniform(mask, 0, lo, false) && Uniform(mask, lo, 32, true)
    ensures InetValidMask(mask) && mask == Ntohl(ValToMask(32 - lo))
  {
    ShapeUp(mask, lo, 32);
    OneRange(32);
    OneSingle(lo);
    NegatedBit(One(lo));
    ValToMaskIs(32 - lo);
  }

  lemma Empty(mask: bv32)
    requires Uniform(mask, 0, 32, false)
    ensures mask == 0
  {
    ShapeLow(mask, 32);
    OneRange(32);
  }

  /** What domask appends to a network's name. */
  datatype Suffix = Nothing | Hex(mask: bv32) | Prefix(length: nat)

  /** domask, on host-order arguments: a prefix length, except for a mask with a hole. */
  method Domask(addr: bv32, mask: bv32) returns (r: Suffix)
    ensures r == Nothing <==> mask == 0 || (addr < 0x8000_0000 && mask == 0xff00_0000)
                              || (0x8000_0000 <= addr < 0xc000_0000 && mask == 0xffff_0000)
                              || (0xc000_0000 <= addr && mask == 0xffff_ff00)
    ensures r.Hex? <==> r != Nothing && !InetValidMask(mask)
    ensures r.Hex? ==> r.mask == mask
    ensures r.Prefix? ==> MaskLength(r.length) && mask == Ntohl(ValToMask(r.length))
  {
    ForgemaskIs(addr);
    if mask == 0 || Forgemask(addr) == mask {
      return Nothing;
    }
    var i: int, b := 0, 0;
    while b < 32
      invariant 0 <= b <= 32 && i == 0 && Uniform(mask, 0, b, false)
      decreases 32 - b
    {
      if Bit(mask, b) {
        i := b;
        var bb := b + 1;
        while bb < 32
          invariant b < bb <= 32 && i == b && Uniform(mask, b, bb, true)
          decreases 32 - bb
        {
          if !Bit(mask, bb) {
            i := -1;
            Hole(mask, b, bb);
            break;
          }
          bb := bb + 1;
        }
        if i != -1 { NoHole(mask, b); }
        break;
      }
      b := b + 1;
    }
    if b == 32 { Empty(mask); }
    if i == -1 {
      return Hex(mask);
    } else {
      return Prefix(32 - i);
    }
  }

  // ---------------------------------------------------------------- subnets

  /** inet_valid_subnet */
  predicate InetValidSubnet(nsubnet: bv32, nmask: bv32) {
    var subnet, mask := Ntohl(nsubnet), Ntohl(nmask);
    if subnet & mask != subnet then false
    else if subnet == 0 then mask == 0
    else if InClassA(subnet)
            && (mask < 0xff00_0000 || subnet & 0xff00_0000 == 0x7f00_0000 || subnet & 0xff00_0000 == 0) then false
    else if InMulticast(subnet) || InBadClass(subnet) then false
    else if subnet & !mask != 0 then false
    else InetValidMask(mask)
  }

  /** The default route, or the network part of a unicast address under a contiguous mask that, for class A,
      covers the first octet; 0.x.x.x and 127.x.x.x are no subnets. */
  lemma ValidSubnetIff(nsubnet: bv32, nmask: bv32)
    ensures var subnet, mask := Ntohl(nsubnet), Ntohl(nmask);
            InetValidSubnet(nsubnet, nmask) <==>
              || (nsubnet == 0 && nmask == 0)
              || (&& 0x0100_0000 <= subnet < 0xe000_0000 && !(0x7f00_0000 <= subnet < 0x8000_0000)
                  && (subnet < 0x8000_0000 ==> mask >= 0xff00_0000)
                  && subnet & !mask == 0 && InetValidMask(mask))
  {
    NtohlInvolution(nsubnet);
    NtohlInvolution(nmask);
  }

  // ---------------------------------------------------------------- decimal text

  predicate IsDigit(c: char) {
    '0' <= c <= '9'
  }

  predicate Numeral(s: string) {
    s != "" && forall i :: 0 <= i < |s| ==> IsDigit(s[i])
  }

  /** `n` printed with `%u`. */
  function Dec(n: nat): (s: string)
    ensures Numeral(s)
  {
    (if n < 10 then "" else Dec(n / 10)) + [DigitOf(n % 10)]
  }

  function DigitOf(d: nat): (c: char)
    requires d < 10
    ensures IsDigit(c) && c as int - '0' as int == d
  {
    '0' + d as char
  }

  function Value(s: string): nat
    requires forall i :: 0 <= i < |s| ==> IsDigit(s[i])
  {
    if s == "" then 0 else assert IsDigit(s[|s| - 1]); Value(s[..|s| - 1]) * 10 + (s[|s| - 1] as int - '0' as int)
  }

  lemma ValueSnoc(s: string, c: char)
    requires forall i :: 0 <= i < |s| ==> IsDigit(s[i])
    requires IsDigit(c)
    ensures Value(s + [c]) == Value(s) * 10 + (c as int - '0' as int)
  {
    assert (s + [c])[..|s|] == s;
  }

  lemma {:induction false} ValueOfDec(n: nat)
    ensures Value(Dec(n)) == n
  {
    if n < 10 {
      ValueSnoc("", DigitOf(n));
    } else {
      ValueOfDec(n / 10);
      ValueSnoc(Dec(n / 10), DigitOf(n % 10));
    }
  }

  /** How many digits `s` starts with. */
  function Digits(s: string): (n: nat)
    ensures n <= |s| && (forall i :: 0 <= i < n ==> IsDigit(s[i])) && (n < |s| ==> !IsDigit(s[n]))
  {
    if s == "" || !IsDigit(s[0]) then 0 else 1 + Digits(s[1..])
  }

  /** isspace */
  predicate IsSpace(c: char) {
    c == ' ' || 9 as char <= c <= 13 as char
  }

  /** What `%u` stores: strtoul in a 64-bit unsigned long, cut to 32 bits. */
  function Stored(v: nat, minus: bool): (r: nat)
    ensures r < 0x1_0000_0000
    ensures !minus && v < 0x1_0000_0000 ==> r == v
  {
    if v >= 0x1_0000_0000_0000_0000 then 0xffff_ffff
    else if minus then (0x1_0000_0000_0000_0000 - v) % 0x1_0000_0000
    else v % 0x1_0000_0000
  }

  /** One `%u` conversion: input exhausted, no number there, or a number and the text behind it. */
  datatype Scan = Eof | NoMatch | Number(n: nat, rest: string)

  function ScanUnsigned(s: string): (r: Scan)
    ensures r.Number? ==> r.n < 0x1_0000_0000 && |r.rest| < |s|
  {
    if s == "" then Eof
    else if IsSpace(s[0]) then ScanUnsigned(s[1..])
    else
      var t := if s[0] == '+' || s[0] == '-' then s[1..] else s;
      var k := Digits(t);
      if k == 0 then NoMatch else Number(Stored(Value(t[..k]), s[0] == '-'), t[k..])
  }

  // ---------------------------------------------------------------- dotted quads

  function Octet(addr: bv32, k: nat): bv8
    requires k < 4
  {
    match k
    case 0 => (addr & 0xff) as bv8
    case 1 => ((addr >> 8) & 0xff) as bv8
    case 2 => ((addr >> 16) & 0xff) as bv8
    case _ => (addr >> 24) as bv8
  }

  function Pack(a0: bv8, a1: bv8, a2: bv8, a3: bv8): bv32 {
    a0 as bv32 | (a1 as bv32 << 8) | (a2 as bv32 << 16) | (a3 as bv32 << 24)
  }

  lemma PackOctets(addr: bv32)
    ensures Pack(Octet(addr, 0), Octet(addr, 1), Octet(addr, 2), Octet(addr, 3)) == addr
  {
  }

  /** "%u.%u.%u.%u" */
  function Dotted(d0: string, d1: string, d2: string, d3: string): string {
    d0 + ("." + (d1 + ("." + (d2 + ("." + d3)))))
  }

  /** inet_fmt */
  function InetFmt(addr: bv32): string {
    Dotted(Dec(Octet(addr, 0) as nat), Dec(Octet(addr, 1) as nat),
           Dec(Octet(addr, 2) as nat), Dec(Octet(addr, 3) as nat))
  }

  /** What sscanf with "%u.%u.%u.%u%c" returns, and the numbers it stored. */
  datatype Quad = Quad(count: int, ns: seq<nat>)

  /** The fields from the one after `ns` on. */
  function ScanQuad(s: string, ns: seq<nat>): (q: Quad)
    requires |ns| < 4 && forall n :: n in ns ==> n < 0x1_0000_0000
    ensures -1 <= q.count <= 5 && |q.ns| <= 4 && (q.count >= 0 ==> |q.ns| == if q.count == 5 then 4 else q.count)
    ensures forall n :: n in q.ns ==> n < 0x1_0000_0000
    decreases 4 - |ns|
  {
    match ScanUnsigned(s)
    case Eof => Quad(if ns == [] then -1 else |ns|, ns)
    case NoMatch => Quad(|ns|, ns)
    case Number(n, rest) =>
      var ms := ns + [n];
      if |ms| == 4 then Quad(if rest == "" then 4 else 5, ms)
      else if rest != "" && rest[0] == '.' then ScanQuad(rest[1..], ms)
      else Quad(|ms|, ms)
  }

  /** inet_parse; fields not read are 0. */
  function InetParse(s: string, n: int): bv32 {
    var q := ScanQuad(s, []);
    var f := (k: nat) => if k < |q.ns| then q.ns[k] else 0;
    if q.count < n || q.count > 4 || f(0) > 255 || f(1) > 255 || f(2) > 255 || f(3) > 255 then FAILED
    else Pack(f(0) as bv8, f(1) as bv8, f(2) as bv8, f(3) as bv8)
  }

  lemma DigitsOf(d: string, t: string)
    requires Numeral(d) && (t == "" || !IsDigit(t[0]))
    ensures ScanUnsigned(d + t) == Number(Stored(Value(d), false), t)
  {
    var s := d + t;
    assert forall i :: 0 <= i < |d| ==> s[i] == d[i];
    assert |d| < |s| ==> s[|d|] == t[0];
    assert IsDigit(s[0]) && Digits(s) == |d|;
    assert s[..|d|] == d && s[|d|..] == t;
  }

  lemma QuadScanned(d0: string, d1: string, d2: string, d3: string, t: string)
    requires Numeral(d0) && Numeral(d1) && Numeral(d2) && Numeral(d3) && (t == "" || !IsDigit(t[0]))
    ensures ScanQuad(Dotted(d0, d1, d2, d3 + t), [])
            == Quad(if t == "" then 4 else 5, [Stored(Value(d0), false), Stored(Value(d1), false),
                                               Stored(Value(d2), false), Stored(Value(d3), false)])
  {
    hide ScanQuad, Value, Stored;
    var s2 := d2 + ("." + (d3 + t));
    var s1 := d1 + ("." + s2);
    var n0, n1, n2 := Stored(Value(d0), false), Stored(Value(d1), false), Stored(Value(d2), false);
    FieldScanned(d0, s1, []);
    FieldScanned(d1, s2, [n0]);
    FieldScanned(d2, d3 + t, [n0, n1]);
    LastFieldScanned(d3, t, [n0, n1, n2]);
    assert [] + [n0] == [n0] && [n0] + [n1] == [n0, n1] && [n0, n1] + [n2] == [n0, n1, n2];
    var n3 := Stored(Value(d3), false);
    assert [n0, n1, n2] + [n3] == [n0, n1, n2, n3];
  }

  /** inet_parse, on what sscanf makes of four numerals. */
  lemma QuadJudged(s: string, n0: nat, n1: nat, n2: nat, n3: nat, count: int)
    requires ScanQuad(s, []) == Quad(count, [n0, n1, n2, n3]) && 4 <= count <= 5
    ensures InetParse(s, 4)
            == if count == 4 && n0 <= 255 && n1 <= 255 && n2 <= 255 && n3 <= 255
               then Pack(n0 as bv8, n1 as bv8, n2 as bv8, n3 as bv8) else FAILED
  {
    hide ScanQuad, Pack;
  }

  /** inet_parse on four numerals with dots between them and any text behind: it succeeds exactly when nothing
      follows and the four stored numbers fit a byte. */
  lemma ParseQuad(d0: string, d1: string, d2: string, d3: string, t: string)
    requires Numeral(d0) && Numeral(d1) && Numeral(d2) && Numeral(d3) && (t == "" || !IsDigit(t[0]))
    ensures var n0, n1, n2, n3 := Stored(Value(d0), false), Stored(Value(d1), false),
                                  Stored(Value(d2), false), Stored(Value(d3), false);
            InetParse(Dotted(d0, d1, d2, d3 + t), 4)
            == if t == "" && n0 <= 255 && n1 <= 255 && n2 <= 255 && n3 <= 255
               then Pack(n0 as bv8, n1 as bv8, n2 as bv8, n3 as bv8) else FAILED
  {
    hide ScanQuad, Value, Stored, Dotted, InetParse, Pack;
    QuadScanned(d0, d1, d2, d3, t);
    QuadJudged(Dotted(d0, d1, d2, d3 + t), Stored(Value(d0), false), Stored(Value(d1), false),
               Stored(Value(d2), false), Stored(Value(d3), false), if t == "" then 4 else 5);
  }

  /** A numeral that passes for an octet: up to 255, or wrapping round to that in 32 bits, as 4294967297 does to 1; from
      2^64 on strtoul stops at its maximum, and none does. */
  predicate OctetText(d: string) {
    Numeral(d) && Value(d) < 0x1_0000_0000_0000_0000 && Value(d) % 0x1_0000_0000 <= 255
  }

  lemma OctetIff(d: string)
    requires Numeral(d)
    ensures Stored(Value(d), false) <= 255 <==> OctetText(d)
    ensures OctetText(d) ==> Stored(Value(d), false) == Value(d) % 0x1_0000_0000
  {
  }

  /** Exactly which four numerals inet_parse takes for an address, and for which. */
  lemma AcceptedOctets(d0: string, d1: string, d2: string, d3: string)
    requires Numeral(d0) && Numeral(d1) && Numeral(d2) && Numeral(d3)
    ensures InetParse(Dotted(d0, d1, d2, d3), 4)
            == if OctetText(d0) && OctetText(d1) && OctetText(d2) && OctetText(d3)
               then Pack((Value(d0) % 0x1_0000_0000) as bv8, (Value(d1) % 0x1_0000_0000) as bv8,
                         (Value(d2) % 0x1_0000_0000) as bv8, (Value(d3) % 0x1_0000_0000) as bv8)
               else FAILED
  {
    hide InetParse, ScanQuad, Value, Stored, Dotted, OctetText, Pack;
    OctetIff(d0);
    OctetIff(d1);
    OctetIff(d2);
    OctetIff(d3);
    assert d3 + "" == d3;
    ParseQuad(d0, d1, d2, d3, "");
  }

  /** A number printed and read back is refused as an octet above 255 unless it wraps. */
  lemma PrintedOctetIff(n: nat)
    ensures OctetText(Dec(n)) <==> n < 0x1_0000_0000_0000_0000 && n % 0x1_0000_0000 <= 255
  {
    ValueOfDec(n);
    hide Value, Dec;
  }

  /** A conversion takes text up to and with a digit, and all the digits there. */
  lemma {:induction false} ScanTakes(s: string)
    requires ScanUnsigned(s).Number?
    ensures var rest := ScanUnsigned(s).rest;
            && rest == s[|s| - |rest|..] && IsDigit(s[|s| - |rest| - 1])
            && (rest == "" || !IsDigit(rest[0]))
  {
    hide Stored, Value;
    if IsSpace(s[0]) {
      ScanTakes(s[1..]);
    } else {
      var t := if s[0] == '+' || s[0] == '-' then s[1..] else s;
      var k := Digits(t);
      assert t[k..] == s[|s| - |t[k..]|..] && t[k - 1] == s[|s| - |t[k..]| - 1];
    }
  }

  lemma {:induction false} QuadTakes(s: string, ns: seq<nat>)
    requires |ns| < 4 && (forall n :: n in ns ==> n < 0x1_0000_0000) && ScanQuad(s, ns).count == 4
    ensures s != "" && IsDigit(s[|s| - 1])
    decreases 4 - |ns|
  {
    hide ScanUnsigned;
    ScanTakes(s);
    var rest := ScanUnsigned(s).rest;
    if |ns| < 3 { QuadTakes(rest[1..], ns + [ScanUnsigned(s).n]); }
  }

  /** No text with anything behind its last digit is an address. */
  lemma NothingTrails(s: string)
    requires InetParse(s, 4) != FAILED
    ensures s != "" && IsDigit(s[|s| - 1])
  {
    QuadTakes(s, []);
  }

  /** Such a text gives 255.255.255.255. */
  lemma NoAddress(s: string)
    requires s == "" || !('0' <= s[|s| - 1] <= '9')
    ensures InetParse(s, 4) == 0xffff_ffff
  {
    if InetParse(s, 4) != FAILED { NothingTrails(s); }
    hide InetParse;
  }

  lemma FieldScanned(d: string, rest: string, ns: seq<nat>)
    requires Numeral(d) && |ns| < 3 && forall n :: n in ns ==> n < 0x1_0000_0000
    ensures ScanQuad(d + ("." + rest), ns) == ScanQuad(rest, ns + [Stored(Value(d), false)])
  {
    DigitsOf(d, "." + rest);
    assert ("." + rest)[1..] == rest;
  }

  lemma LastFieldScanned(d: string, t: string, ns: seq<nat>)
    requires Numeral(d) && (t == "" || !IsDigit(t[0]))
    requires |ns| == 3 && forall n :: n in ns ==> n < 0x1_0000_0000
    ensures ScanQuad(d + t, ns) == Quad(if t == "" then 4 else 5, ns + [Stored(Value(d), false)])
  {
    DigitsOf(d, t);
  }

  lemma DecOctet(o: bv8)
    ensures Numeral(Dec(o as nat)) && |Dec(o as nat)| <= 3
    ensures Stored(Value(Dec(o as nat)), false) == o as nat <= 255
    ensures (o as nat) as bv8 == o
  {
    ValueOfDec(o as nat);
    assert Pow10(3) == 1000;
    DecLength(o as nat, 3);
  }

  /** Printing an address and parsing the text gives the address back, and the text fits s1, s2 and s3. */
  lemma FmtRoundTrip(addr: bv32)
    ensures InetParse(InetFmt(addr), 4) == addr
    ensures |InetFmt(addr)| + 1 <= 19
  {
    var o0, o1, o2, o3 := Octet(addr, 0), Octet(addr, 1), Octet(addr, 2), Octet(addr, 3);
    DecOctet(o0);
    DecOctet(o1);
    DecOctet(o2);
    DecOctet(o3);
    QuadRoundTrip(o0, o1, o2, o3);
    PackOctets(addr);
  }

  lemma QuadRoundTrip(o0: bv8, o1: bv8, o2: bv8, o3: bv8)
    ensures InetParse(Dotted(Dec(o0 as nat), Dec(o1 as nat), Dec(o2 as nat), Dec(o3 as nat)), 4)
            == Pack(o0, o1, o2, o3)
  {
    hide ScanQuad, Value, Stored, Dotted, Dec, InetParse, Pack;
    DecOctet(o0);
    DecOctet(o1);
    DecOctet(o2);
    DecOctet(o3);
    ParseQuad(Dec(o0 as nat), Dec(o1 as nat), Dec(o2 as nat), Dec(o3 as nat), "");
    assert Dec(o3 as nat) + "" == Dec(o3 as nat);
  }

  /** A plus sign in front of an address changes nothing. */
  lemma SignIgnored(addr: bv32)
    ensures InetParse("+" + InetFmt(addr), 4) == addr
  {
    FmtRoundTrip(addr);
    var d, behind := FirstOctet(addr);
    SignScanned(d, behind);
    SameScan("+" + InetFmt(addr), InetFmt(addr));
    hide *;
  }

  lemma FirstOctet(addr: bv32) returns (d: string, behind: string)
    ensures Numeral(d) && behind != "" && !IsDigit(behind[0]) && InetFmt(addr) == d + behind
  {
    hide Octet, Dec;
    d := Dec(Octet(addr, 0) as nat);
    behind := "." + (Dec(Octet(addr, 1) as nat) + ("." + (Dec(Octet(addr, 2) as nat) + ("." + Dec(Octet(addr, 3) as nat)))));
  }

  lemma SignScanned(d: string, t: string)
    requires Numeral(d) && (t == "" || !IsDigit(t[0]))
    ensures ScanUnsigned("+" + (d + t)) == ScanUnsigned(d + t)
  {
    assert ("+" + (d + t))[1..] == d + t;
    assert (d + t)[0] == d[0];
    hide Stored, Value;
  }

  lemma SameScan(s: string, t: string)
    requires ScanUnsigned(s) == ScanUnsigned(t)
    ensures InetParse(s, 4) == InetParse(t, 4)
  {
    hide ScanUnsigned;
  }

  lemma {:induction false} DecLength(n: nat, k: nat)
    requires k >= 1 && n < Pow10(k)
    ensures |Dec(n)| <= k
  {
    if n >= 10 { DecLength(n / 10, k - 1); }
  }

  function Pow10(k: nat): nat {
    if k == 0 then 1 else 10 * Pow10(k - 1)
  }

  // ---------------------------------------------------------------- in plain numbers

  /** What `%u` makes of a printed number, and of one behind a minus sign: the value modulo 2^32, for what fits the 64
      bits of strtoul. */
  lemma PrintedScanned(n: nat)
    ensures ScanUnsigned(Dec(n)) == Number(if n < 0x1_0000_0000_0000_0000 then n % 0x1_0000_0000 else 0xffff_ffff, "")
    ensures n < 0x1_0000_0000_0000_0000 ==>
              ScanUnsigned("-" + Dec(n)) == Number((0x1_0000_0000_0000_0000 - n) % 0x1_0000_0000, "")
  {
    ValueOfDec(n);
    assert Dec(n) + "" == Dec(n);
    DigitsOf(Dec(n), "");
    MinusScanned(Dec(n));
    hide ScanUnsigned, Dec, Value;
  }

  lemma MinusScanned(d: string)
    requires Numeral(d)
    ensures ScanUnsigned("-" + d) == Number(Stored(Value(d), true), "")
  {
    hide Stored, Value;
    assert ("-" + d)[1..] == d;
    assert Digits(d) == |d| && d[..|d|] == d && d[|d|..] == "";
  }

  /** White space in front of a number is skipped; anything else but a digit or a sign is no number. */
  lemma FrontScanned(c: char, s: string)
    ensures c == ' ' || 9 as char <= c <= 13 as char ==> ScanUnsigned([c] + s) == ScanUnsigned(s)
    ensures c != ' ' && !(9 as char <= c <= 13 as char) && c != '+' && c != '-' && !('0' <= c <= '9')
            ==> ScanUnsigned([c] + s) == NoMatch
  {
    assert ([c] + s)[1..] == s;
  }

  lemma SomeNumbers()
    ensures Dec(255) == "255" && Value("255") == 255 && Dec(1024) == "1024"
  {
    assert Dec(2) == "2" && Dec(25) == "25" && Dec(1) == "1" && Dec(10) == "10" && Dec(102) == "102";
    ValueOfDec(255);
  }

  /** Four octets as one number, the first on top. */
  function QuadValue(o0: bv8, o1: bv8, o2: bv8, o3: bv8): bv32 {
    0x100_0000 * (o0 as bv32) + 0x1_0000 * (o1 as bv32) + 0x100 * (o2 as bv32) + (o3 as bv32)
  }

  lemma PackNumber(o0: bv8, o1: bv8, o2: bv8, o3: bv8)
    ensures Ntohl(Pack(o0, o1, o2, o3)) == QuadValue(o0, o1, o2, o3)
  {
  }

  lemma DottedIs(d0: string, d1: string, d2: string, d3: string)
    ensures Dotted(d0, d1, d2, d3) == d0 + "." + d1 + "." + d2 + "." + d3
  {
  }

  /** The address that four octets in dotted form stand for. */
  lemma QuadNumber(o0: bv8, o1: bv8, o2: bv8, o3: bv8)
    ensures Ntohl(InetParse(Dec(o0 as nat) + "." + Dec(o1 as nat) + "." + Dec(o2 as nat) + "." + Dec(o3 as nat), 4))
            == QuadValue(o0, o1, o2, o3)
  {
    hide *;
    QuadRoundTrip(o0, o1, o2, o3);
    PackNumber(o0, o1, o2, o3);
    DottedIs(Dec(o0 as nat), Dec(o1 as nat), Dec(o2 as nat), Dec(o3 as nat));
  }

  lemma SomeMasks()
    ensures MaskFrom(0) == 0xffff_ffff && MaskFrom(1) == 0xffff_fffe && MaskFrom(8) == 0xffff_ff00
    ensures MaskFrom(24) == 0xff00_0000 && MaskFrom(32) == 0
  {
    assert One(8) == 0x100;
    assert One(16) == 0x1_0000;
    assert One(24) == 0x100_0000;
    assert One(31) == 0x8000_0000;
  }
}
