/** The UDP checksum of a packet: udp_checksum, against the 16-bit one's complement sum of RFC 1071.

  A `uint32_t` accumulator is a number below 2^32 with wrap-around written out in `Add32`.
  */
module Checksum {

  type Byte = b: int | 0 <= b < 0x100
  type Word = w: int | 0 <= w < 0x1_0000

  /** Byte order of the machine running the code. */
  datatype Host = Little | Big

  /** An `in_addr_t`: four bytes in network order. */
  datatype Address = Address(b0: Byte, b1: Byte, b2: Byte, b3: Byte)

  const IPPROTO_UDP: Word := 17

  function Swap(w: Word): Word {
    w % 0x100 * 0x100 + w / 0x100
  }

  /** The value of the `uint16_t` stored in two consecutive bytes. */
  function Load(host: Host, first: Byte, second: Byte): Word {
    match host
    case Little => first + 0x100 * second
    case Big => 0x100 * first + second
  }

  function Htons(host: Host, w: Word): Word {
    if host == Little then Swap(w) else w
  }

  // ---------------------------------------------------------------- RFC 1071 and RFC 768

  /** One's complement addition: the carry out of the top goes back in at the bottom. */
  function Plus(a: Word, b: Word): Word {
    if a + b > 0xFFFF then a + b - 0xFFFF else a + b
  }

  function OnesSum(ws: seq<Word>): Word {
    if ws == [] then 0 else Plus(OnesSum(ws[..|ws| - 1]), ws[|ws| - 1])
  }

  /** The packet as big-endian words, an odd last byte padded with a zero byte behind it. */
  function NetData(buff: seq<Byte>): seq<Word> {
    seq(|buff| / 2, i requires 0 <= i < |buff| / 2 => Load(Big, buff[2 * i], buff[2 * i + 1]))
    + (if |buff| % 2 == 1 then [Load(Big, buff[|buff| - 1], 0)] else [])
  }

  /** The pseudo-header of RFC 768: both addresses, zero and the protocol number, the length. */
  function NetPseudo(len: nat, src: Address, dst: Address): seq<Word> {
    [Load(Big, src.b0, src.b1), Load(Big, src.b2, src.b3), Load(Big, dst.b0, dst.b1), Load(Big, dst.b2, dst.b3),
     IPPROTO_UDP, len % 0x1_0000]
  }

  /** The checksum of RFC 768 as computed, a big-endian word. */
  function Rfc768(buff: seq<Byte>, src: Address, dst: Address): Word {
    0xFFFF - OnesSum(NetPseudo(|buff|, src, dst) + NetData(buff))
  }

  // ---------------------------------------------------------------- what the code adds up

  /** The checksum of RFC 768 as transmitted: 0 would mean that there is none, so a computed 0 goes out as all ones. */
  function Transmitted(buff: seq<Byte>, src: Address, dst: Address): Word {
    var c := Rfc768(buff, src, dst);
    if c == 0 then 0xFFFF else c
  }

  function HostData(host: Host, buff: seq<Byte>): seq<Word> {
    seq(|buff| / 2, i requires 0 <= i < |buff| / 2 => Load(host, buff[2 * i], buff[2 * i + 1]))
    + (if |buff| % 2 == 1 then [buff[|buff| - 1]] else [])
  }

  function HostPseudo(host: Host, len: nat, src: Address, dst: Address): seq<Word> {
    [Load(host, src.b0, src.b1), Load(host, src.b2, src.b3), Load(host, dst.b0, dst.b1), Load(host, dst.b2, dst.b3),
     Htons(host, IPPROTO_UDP), Htons(host, len % 0x1_0000)]
  }

  /** The value udp_checksum returns. */
  function Udp(host: Host, buff: seq<Byte>, src: Address, dst: Address): Word {
    0xFFFF - OnesSum(HostData(host, buff) + HostPseudo(host, |buff|, src, dst))
  }

  // ---------------------------------------------------------------- the accumulator

  type UInt32 = x: int | 0 <= x < 0x1_0000_0000

  /** The carry out of bit 31 is lost. */
  function Add32(a: UInt32, b: UInt32): UInt32 {
    if a + b >= 0x1_0000_0000 then a + b - 0x1_0000_0000 else a + b
  }

  /** `(sum & 0xFFFF) + (sum >> 16)` */
  function Fold(sum: UInt32): UInt32 {
    Add32(sum % 0x1_0000, sum / 0x1_0000)
  }

  function Sum(ws: seq<Word>): nat {
    if ws == [] then 0 else Sum(ws[..|ws| - 1]) + ws[|ws| - 1]
  }

  /** `x` with its carries above 16 bits brought round: 0 only for 0. */
  function Norm(x: nat): Word {
    if x <= 0xFFFF then x else Norm(x - 0xFFFF)
  }

  /** `Norm` picks the representative in 1..0xFFFF modulo 0xFFFF, and 0 for 0. */
  lemma {:induction false} NormIs(x: nat)
    ensures (Norm(x) == 0 <==> x == 0) && Norm(x) % 0xFFFF == x % 0xFFFF
  {
    if x > 0xFFFF { NormIs(x - 0xFFFF); }
  }

  lemma {:induction false} NormAdd(x: nat, w: nat)
    ensures Norm(x + w) == Norm(Norm(x) as int + w)
  {
    if x > 0xFFFF { NormAdd(x - 0xFFFF, w); }
  }

  lemma {:induction false} NormMinus(x: nat, n: nat)
    requires x > 0xFFFF * n
    ensures Norm(x - 0xFFFF * n) == Norm(x)
  {
    if n > 0 { NormMinus(x - 0xFFFF, n - 1); }
  }

  lemma NormFold(x: UInt32)
    requires x > 0
    ensures 0 < Fold(x) == x % 0x1_0000 + x / 0x1_0000 && Norm(Fold(x)) == Norm(x)
  {
    NormMinus(x, x / 0x1_0000);
  }

  /** One turn of the first loop, for the accumulator: the addition does not wrap, and folding keeps the sum. */
  lemma Accumulate(sum: UInt32, total: nat, w: Word)
    requires sum < 0x8000_0000 && Norm(sum) == Norm(total)
    ensures Add32(sum, w) == sum + w as int < 0x8001_0000 && Norm(Add32(sum, w)) == Norm(total + w as int)
    ensures Add32(sum, w) >= 0x8000_0000 ==>
              Fold(Add32(sum, w)) < 0x8000_0000 && Norm(Fold(Add32(sum, w))) == Norm(total + w as int)
  {
    NormAdd(sum, w);
    NormAdd(total, w);
    if sum + w as int >= 0x8000_0000 { NormFold(sum + w as int); }
  }

  /** The 16-bit sum with its carries brought round is the plain sum, reduced. */
  lemma {:induction false} OnesSumIsNorm(ws: seq<Word>)
    ensures OnesSum(ws) == Norm(Sum(ws))
  {
    if ws != [] {
      var front, w := ws[..|ws| - 1], ws[|ws| - 1];
      OnesSumIsNorm(front);
      NormAdd(Sum(front), w);
    }
  }

  lemma {:induction false} SumAppend(a: seq<Word>, b: seq<Word>)
    ensures Sum(a + b) == Sum(a) + Sum(b)
  {
    if b == [] {
      assert a + b == a;
    } else {
      assert (a + b)[..|a + b| - 1] == a + b[..|b| - 1];
      SumAppend(a, b[..|b| - 1]);
    }
  }

  /** udp_checksum; `folds` counts the steps of its last loop. */
  method UdpChecksum(host: Host, buff: seq<Byte>, src: Address, dst: Address) returns (r: Word, ghost folds: nat)
    ensures r == Udp(host, buff, src, dst)
    ensures r != 0xFFFF
    ensures folds <= 2
  {
    hide Udp, Load, Htons;
    ghost var k := 0;
    var sum: UInt32, len, buf := 0, |buff|, 0;
    while len > 1
      invariant 0 <= len && buf == 2 * k == |buff| - len
      invariant sum < 0x8000_0000 && Norm(sum) == Norm(Total(host, buff, k))
    {
      var w := Load(host, buff[buf], buff[buf + 1]);
      Accumulate(sum, Total(host, buff, k), w);
      sum := Add32(sum, w);
      buf := buf + 2;
      if sum >= 0x8000_0000 {
        sum := Fold(sum);
      }
      len := len - 2;
      k := k + 1;
    }
    if len % 2 == 1 {
      Accumulate(sum, Total(host, buff, k), buff[buf]);
      sum := Add32(sum, buff[buf]);
      k := k + 1;
    }
    HeaderAdded(host, buff, src, dst, k, sum);
    sum := Add32(sum, Load(host, src.b0, src.b1));
    sum := Add32(sum, Load(host, src.b2, src.b3));
    sum := Add32(sum, Load(host, dst.b0, dst.b1));
    sum := Add32(sum, Load(host, dst.b2, dst.b3));
    sum := Add32(sum, Htons(host, IPPROTO_UDP));
    sum := Add32(sum, Htons(host, |buff| % 0x1_0000));
    folds := 0;
    while sum / 0x1_0000 != 0
      invariant 0 < sum < 0x1_0000_0000 && Norm(sum) == 0xFFFF - Udp(host, buff, src, dst)
      invariant folds <= 2 && sum < (if folds == 0 then 0x8008_0000 else if folds == 1 then 0x1_9000 else 0x1_0000)
      decreases sum
    {
      NormFold(sum);
      sum := Fold(sum);
      folds := folds + 1;
    }
    r := 0xFFFF - sum;
  }

  /** The sum of the first `k` words that the code reads from the packet. */
  ghost function Total(host: Host, buff: seq<Byte>, k: nat): nat
    requires 2 * k <= |buff| + 1
  {
    if k == 0 then 0
    else Total(host, buff, k - 1)
         + (if 2 * k <= |buff| then Load(host, buff[2 * k - 2], buff[2 * k - 1]) else buff[2 * k - 2])
  }

  lemma {:induction false} TotalIsSum(host: Host, buff: seq<Byte>, k: nat)
    requires 2 * k <= |buff| + 1
    ensures k <= |HostData(host, buff)| == (|buff| + 1) / 2
    ensures Total(host, buff, k) == Sum(HostData(host, buff)[..k])
    ensures k == |HostData(host, buff)| ==> Total(host, buff, k) == Sum(HostData(host, buff))
  {
    var d := HostData(host, buff);
    if k > 0 {
      TotalIsSum(host, buff, k - 1);
      assert d[..k][..k - 1] == d[..k - 1];
    }
    assert d[..|d|] == d;
  }

  lemma SumLast(a: Word, ws: seq<Word>)
    ensures Sum(ws + [a]) == Sum(ws) + a as int
  {
    assert (ws + [a])[..|ws|] == ws;
  }

  lemma SumSix(a: Word, b: Word, c: Word, d: Word, e: Word, f: Word)
    ensures Sum([a, b, c, d, e, f]) == a as int + b as int + c as int + d as int + e as int + f as int
  {
    SumLast(a, []);
    SumLast(b, [a]);
    SumLast(c, [a, b]);
    SumLast(d, [a, b, c]);
    SumLast(e, [a, b, c, d]);
    SumLast(f, [a, b, c, d, e]);
    assert [] + [a] == [a] && [a] + [b] == [a, b] && [a, b] + [c] == [a, b, c];
    assert [a, b, c] + [d] == [a, b, c, d] && [a, b, c, d] + [e] == [a, b, c, d, e];
    assert [a, b, c, d, e] + [f] == [a, b, c, d, e, f];
  }

  /** Six more additions do not wrap. */
  lemma SixAdds(s: UInt32, a: Word, b: Word, c: Word, d: Word, e: Word, f: Word)
    requires s < 0x8001_0000
    ensures Add32(Add32(Add32(Add32(Add32(Add32(s, a), b), c), d), e), f)
            == s + a as int + b as int + c as int + d as int + e as int + f as int < 0x8008_0000
  {
  }

  /** The six additions of the pseudo-header neither wrap nor leave 0. */
  lemma PseudoAdded(sum: UInt32, data: seq<Word>, a: Word, b: Word, c: Word, d: Word, e: Word, f: Word)
    requires e > 0
    requires sum < 0x8001_0000 && Norm(sum) == Norm(Sum(data))
    ensures var t := Add32(Add32(Add32(Add32(Add32(Add32(sum, a), b), c), d), e), f);
            0 < t < 0x8008_0000 && Norm(t) == OnesSum(data + [a, b, c, d, e, f])
  {
    var p := [a, b, c, d, e, f];
    SixAdds(sum, a, b, c, d, e, f);
    SumSix(a, b, c, d, e, f);
    NormAdd(sum, Sum(p));
    NormAdd(Sum(data), Sum(p));
    SumAppend(data, p);
    OnesSumIsNorm(data + p);
  }

  lemma HeaderAdded(host: Host, buff: seq<Byte>, src: Address, dst: Address, k: nat, sum: UInt32)
    requires |buff| <= 2 * k <= |buff| + 1
    requires sum < 0x8001_0000 && Norm(sum) == Norm(Total(host, buff, k))
    ensures var t := Add32(Add32(Add32(Add32(Add32(Add32(sum, Load(host, src.b0, src.b1)), Load(host, src.b2, src.b3)),
                             Load(host, dst.b0, dst.b1)), Load(host, dst.b2, dst.b3)),
                             Htons(host, IPPROTO_UDP)), Htons(host, |buff| % 0x1_0000));
            0 < t < 0x8008_0000 && Norm(t) == 0xFFFF - Udp(host, buff, src, dst)
  {
    TotalIsSum(host, buff, k);
    PseudoAdded(sum, HostData(host, buff), Load(host, src.b0, src.b1), Load(host, src.b2, src.b3),
                Load(host, dst.b0, dst.b1), Load(host, dst.b2, dst.b3),
                Htons(host, IPPROTO_UDP), Htons(host, |buff| % 0x1_0000));
  }

  // ---------------------------------------------------------------- what the checksum is for

  /** The result as an arithmetic value: never 0xFFFF, and the complement of the total modulo 0xFFFF. */
  lemma UdpValue(host: Host, buff: seq<Byte>, src: Address, dst: Address)
    ensures var total := Sum(HostData(host, buff)) + Sum(HostPseudo(host, |buff|, src, dst));
            total > 0 && Udp(host, buff, src, dst) == 0xFFFF - Norm(total)
            && Udp(host, buff, src, dst) < 0xFFFF
  {
    var d, p := HostData(host, buff), HostPseudo(host, |buff|, src, dst);
    SumAppend(d, p);
    OnesSumIsNorm(d + p);
    SumSix(p[0], p[1], p[2], p[3], p[4], p[5]);
    assert p == [p[0], p[1], p[2], p[3], p[4], p[5]];
    NormIs(Sum(d) + Sum(p));
  }

  /** `buff` with a word stored at byte offset `at`. */
  function StoreWord(host: Host, buff: seq<Byte>, at: nat, w: Word): seq<Byte>
    requires at + 1 < |buff|
  {
    if host == Little then buff[at := w % 0x100][at + 1 := w / 0x100]
    else buff[at := w / 0x100][at + 1 := w % 0x100]
  }

  lemma {:induction false} SumUpdate(ws: seq<Word>, i: nat, w: Word)
    requires i < |ws|
    ensures Sum(ws[i := w]) == Sum(ws) - ws[i] as int + w as int
  {
    var n := |ws| - 1;
    if i == n {
      assert ws[i := w][..n] == ws[..n];
    } else {
      assert ws[i := w][..n] == ws[..n][i := w];
      SumUpdate(ws[..n], i, w);
    }
  }

  lemma DataOfStored(host: Host, buff: seq<Byte>, k: nat, w: Word)
    requires 2 * k + 1 < |buff|
    ensures |StoreWord(host, buff, 2 * k, w)| == |buff| && k < |HostData(host, buff)|
    ensures HostData(host, StoreWord(host, buff, 2 * k, w)) == HostData(host, buff)[k := w]
    ensures HostData(host, buff)[k] == Load(host, buff[2 * k], buff[2 * k + 1])
  {
    var sent := StoreWord(host, buff, 2 * k, w);
    assert forall i :: 0 <= i < |buff| && i != 2 * k && i != 2 * k + 1 ==> sent[i] == buff[i];
  }

  /** The receiver's check: with the checksum stored in a zero field, the packet sums to zero. */
  lemma ReceiverCheck(host: Host, buff: seq<Byte>, src: Address, dst: Address, k: nat)
    requires 2 * k + 1 < |buff| && buff[2 * k] == 0 && buff[2 * k + 1] == 0
    ensures Udp(host, StoreWord(host, buff, 2 * k, Udp(host, buff, src, dst)), src, dst) == 0
  {
    hide Udp, HostData, HostPseudo, Sum, StoreWord;
    var r := Udp(host, buff, src, dst);
    var sent := StoreWord(host, buff, 2 * k, r);
    var d, total := HostData(host, buff), Sum(HostData(host, buff)) + Sum(HostPseudo(host, |buff|, src, dst));
    UdpValue(host, buff, src, dst);
    UdpValue(host, sent, src, dst);
    DataOfStored(host, buff, k, r);
    SumUpdate(d, k, r);
    NormAdd(total, r);
  }

  /** The order of the words does not matter, and neither does which address is the sender's. */
  lemma OrderIrrelevant(host: Host, buff: seq<Byte>, buff': seq<Byte>, src: Address, dst: Address)
    requires |buff| == |buff'| && multiset(HostData(host, buff)) == multiset(HostData(host, buff'))
    ensures Udp(host, buff, src, dst) == Udp(host, buff', src, dst) == Udp(host, buff', dst, src)
  {
    hide Udp, HostData, Norm, Sum;
    UdpValue(host, buff, src, dst);
    UdpValue(host, buff', src, dst);
    UdpValue(host, buff', dst, src);
    SumPermutation(HostData(host, buff), HostData(host, buff'));
    var p, q := HostPseudo(host, |buff|, src, dst), HostPseudo(host, |buff|, dst, src);
    SumSix(p[0], p[1], p[2], p[3], p[4], p[5]);
    SumSix(p[2], p[3], p[0], p[1], p[4], p[5]);
    assert p == [p[0], p[1], p[2], p[3], p[4], p[5]] && q == [p[2], p[3], p[0], p[1], p[4], p[5]];
  }

  lemma {:induction false} SumPermutation(a: seq<Word>, b: seq<Word>)
    requires multiset(a) == multiset(b)
    ensures Sum(a) == Sum(b)
    decreases |a|
  {
    assert |a| == |multiset(a)| == |multiset(b)| == |b|;
    if a != [] {
      var n, w := |a| - 1, a[|a| - 1];
      assert w in multiset(b);
      var i :| 0 <= i < |b| && b[i] == w;
      var b' := b[..i] + b[i + 1..];
      assert a == a[..n] + [w];
      assert b == b[..i] + ([w] + b[i + 1..]);
      assert multiset(a[..n]) == multiset(a) - multiset{w};
      assert multiset(b') == multiset(b) - multiset{w};
      SumPermutation(a[..n], b');
      SumAppend(b[..i], [w] + b[i + 1..]);
      SumAppend([w], b[i + 1..]);
      SumAppend(b[..i], b[i + 1..]);
      SumLast(w, []);
      assert [] + [w] == [w];
    }
  }

  // ---------------------------------------------------------------- byte order

  function SwapAll(ws: seq<Word>): (r: seq<Word>)
    ensures |r| == |ws| && forall i :: 0 <= i < |ws| ==> r[i] == Swap(ws[i])
  {
    seq(|ws|, i requires 0 <= i < |ws| => Swap(ws[i]))
  }

  lemma SwapParts(hi: Byte, lo: Byte)
    ensures Swap(0x100 * hi + lo) == 0x100 * lo + hi
  {
  }

  /** End-around carry from byte sums: `hi` and `lo` each at most 0x1FE. */
  lemma SwapPlusParts(a1: Byte, a0: Byte, b1: Byte, b0: Byte)
    ensures Swap(Plus(0x100 * a1 + a0, 0x100 * b1 + b0)) == Plus(0x100 * a0 + a1, 0x100 * b0 + b1)
  {
    var hi, lo := a1 as int + b1 as int, a0 as int + b0 as int;
    if hi < 0x100 && lo < 0x100 {
      SwapParts(hi, lo);
    } else if lo < 0x100 {
      if lo == 0xFF { SwapParts(hi - 0xFF, 0); } else { SwapParts(hi - 0x100, lo + 1); }
    } else if hi < 0xFF {
      SwapParts(hi + 1, lo - 0x100);
    } else {
      SwapParts(hi - 0xFF, lo - 0xFF);
    }
  }

  lemma SwapPlus(a: Word, b: Word)
    ensures Swap(Plus(a, b)) == Plus(Swap(a), Swap(b))
  {
    SwapPlusParts(a / 0x100, a % 0x100, b / 0x100, b % 0x100);
    SwapParts(a / 0x100, a % 0x100);
    SwapParts(b / 0x100, b % 0x100);
  }

  lemma {:induction false} SwapOnesSum(ws: seq<Word>)
    ensures OnesSum(SwapAll(ws)) == Swap(OnesSum(ws))
  {
    if ws != [] {
      var n := |ws| - 1;
      assert SwapAll(ws)[..n] == SwapAll(ws[..n]);
      SwapOnesSum(ws[..n]);
      SwapPlus(OnesSum(ws[..n]), ws[n]);
    }
  }

  lemma SwapAppend(a: seq<Word>, b: seq<Word>)
    ensures SwapAll(a) + SwapAll(b) == SwapAll(a + b)
  {
  }

  lemma OnesSumRotate(a: seq<Word>, b: seq<Word>)
    ensures OnesSum(a + b) == OnesSum(b + a)
  {
    OnesSumIsNorm(a + b);
    OnesSumIsNorm(b + a);
    SumAppend(a, b);
    SumAppend(b, a);
  }

  lemma SwapChecksum(d: seq<Word>, p: seq<Word>)
    ensures 0xFFFF - OnesSum(SwapAll(d) + SwapAll(p)) == Swap(0xFFFF - OnesSum(p + d))
  {
    SwapAppend(d, p);
    SwapOnesSum(d + p);
    OnesSumRotate(d, p);
    var x := OnesSum(p + d);
    SwapParts(0xFF - x / 0x100, 0xFF - x % 0x100);
  }

  lemma DataSwapped(buff: seq<Byte>)
    ensures HostData(Little, buff) == SwapAll(NetData(buff))
  {
    var h, d := HostData(Little, buff), NetData(buff);
    forall i | 0 <= i < |h| ensures h[i] == Swap(d[i]) {
      if 2 * i + 1 < |buff| {
        SwapParts(buff[2 * i], buff[2 * i + 1]);
      } else {
        SwapParts(buff[2 * i], 0);
      }
    }
  }

  lemma PseudoSwapped(n: nat, src: Address, dst: Address)
    ensures HostPseudo(Little, n, src, dst) == SwapAll(NetPseudo(n, src, dst))
  {
    SwapParts(src.b0, src.b1);
    SwapParts(src.b2, src.b3);
    SwapParts(dst.b0, dst.b1);
    SwapParts(dst.b2, dst.b3);
  }

  /** On a little-endian machine the returned word, stored in the packet, is the RFC 768 checksum. */
  lemma LittleEndianIsRfc768(buff: seq<Byte>, src: Address, dst: Address)
    ensures Udp(Little, buff, src, dst) == Swap(Rfc768(buff, src, dst))
  {
    var d, p := NetData(buff), NetPseudo(|buff|, src, dst);
    DataSwapped(buff);
    PseudoSwapped(|buff|, src, dst);
    SwapChecksum(d, p);
  }

  /** On a big-endian machine an odd last byte is added in the low half of its word: the result is the
      RFC 768 checksum exactly for even lengths and for a last byte of zero. */
  lemma BigEndianIsRfc768(buff: seq<Byte>, src: Address, dst: Address)
    ensures Udp(Big, buff, src, dst) == Rfc768(buff, src, dst)
            <==> |buff| % 2 == 0 || buff[|buff| - 1] == 0
  {
    var n, d, p := |buff|, NetData(buff), NetPseudo(|buff|, src, dst);
    var h := HostData(Big, buff);
    assert HostPseudo(Big, n, src, dst) == p;
    OnesSumRotate(d, p);
    if n % 2 == 0 || buff[n - 1] == 0 {
      assert h == d;
    } else {
      var b := buff[n - 1];
      var front := h[..n / 2];
      assert h == front + [b] && d == front + [Load(Big, b, 0)];
      OddByteMatters(front, b, p);
    }
  }

  lemma SwapOnto(a: Word, b: Word)
    ensures Swap(a) == Swap(b) <==> a == b
  {
  }

  /** RFC 768 computes 0 exactly for totals that are multiples of 65535. */
  lemma ZeroIff(buff: seq<Byte>, src: Address, dst: Address)
    ensures Rfc768(buff, src, dst) == 0 <==> (Sum(NetPseudo(|buff|, src, dst)) + Sum(NetData(buff))) % 0xFFFF == 0
  {
    hide NetData;
    var p, d := NetPseudo(|buff|, src, dst), NetData(buff);
    OnesSumIsNorm(p + d);
    SumAppend(p, d);
    SumSix(p[0], p[1], p[2], p[3], p[4], p[5]);
    assert p == [p[0], p[1], p[2], p[3], p[4], p[5]];
    NormIs(Sum(p) + Sum(d));
  }

  /** The code leaves a computed 0 as it is: what it returns is what RFC 768 lets be transmitted exactly for the other
      totals, and on a big-endian machine only if the odd byte is right as well. */
  lemma TransmittedIff(buff: seq<Byte>, src: Address, dst: Address)
    ensures Udp(Little, buff, src, dst) == Swap(Transmitted(buff, src, dst))
            <==> (Sum(NetPseudo(|buff|, src, dst)) + Sum(NetData(buff))) % 0xFFFF != 0
    ensures Udp(Big, buff, src, dst) == Transmitted(buff, src, dst)
            <==> (|buff| % 2 == 0 || buff[|buff| - 1] == 0)
                 && (Sum(NetPseudo(|buff|, src, dst)) + Sum(NetData(buff))) % 0xFFFF != 0
  {
    ZeroIff(buff, src, dst);
    LittleEndianIsRfc768(buff, src, dst);
    BigEndianIsRfc768(buff, src, dst);
    UdpValue(Big, buff, src, dst);
    SwapOnto(Rfc768(buff, src, dst), Transmitted(buff, src, dst));
    hide Udp, Rfc768, NetData, NetPseudo, Sum, Swap;
  }

  /** A packet for which 0 is computed: two bytes between zero addresses. */
  lemma ZeroPacket()
    ensures var zero := Address(0, 0, 0, 0);
            Udp(Little, [0xFF, 0xEC], zero, zero) == 0 && Transmitted([0xFF, 0xEC], zero, zero) == 0xFFFF
  {
    var zero := Address(0, 0, 0, 0);
    var p, d := NetPseudo(2, zero, zero), NetData([0xFF, 0xEC]);
    assert p == [0, 0, 0, 0, 17, 2] && d == [0xFFEC];
    SumSix(0, 0, 0, 0, 17, 2);
    SumLast(0xFFEC, []);
    assert [] + [0xFFEC] == d;
    ZeroIff([0xFF, 0xEC], zero, zero);
    LittleEndianIsRfc768([0xFF, 0xEC], zero, zero);
    hide Udp, Rfc768, NetData, NetPseudo, Sum;
  }

  lemma OddByteMatters(front: seq<Word>, b: Byte, p: seq<Word>)
    requires b != 0
    ensures OnesSum(front + [b] + p) != OnesSum(front + [Load(Big, b, 0)] + p)
  {
    var t := Sum(front) + Sum(p);
    SumAppend(front + [b], p);
    SumAppend(front + [Load(Big, b, 0)], p);
    SumLast(b, front);
    SumLast(Load(Big, b, 0), front);
    OnesSumIsNorm(front + [b] + p);
    OnesSumIsNorm(front + [Load(Big, b, 0)] + p);
    NormIs(t + b);
    NormIs(t + 0x100 * b);
    DifferentResidues(t, b);
  }

  lemma DifferentResidues(t: nat, b: Byte)
    requires b != 0
    ensures (t + b) % 0xFFFF != (t + 0x100 * b) % 0xFFFF
  {
    var q, r := (t + b) / 0xFFFF, (t + b) % 0xFFFF;
    assert t + 0x100 * b == 0xFFFF * q + (r + 0xFF * b);
  }
}
