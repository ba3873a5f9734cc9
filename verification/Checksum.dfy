/**
 The Internet checksum of kernel/kernel/net.c: net_checksum over a packet and tcp_checksum over a segment with its
 pseudo header, in 32-bit unsigned arithmetic.  What makes it a checksum is proved for every packet: a packet that
 carries it verifies, and a changed word is noticed.
 */
module Checksum {

  type Byte = b: int | 0 <= b < 256
  type Half = h: int | 0 <= h < 0x10000
  type Word = w: int | 0 <= w < 0x1_0000_0000

  const WRAP: int := 0x1_0000_0000
  const IP_PROTO_TCP: int := 6

  // ---------------------------------------------------------------- sums of big-endian halves

  function Join(a: int, b: int): int { a * 256 + b }

  /** The sum of the 16-bit halves, an odd last byte being the upper part of one. */
  function WordSum(d: seq<Byte>): nat {
    if |d| == 0 then 0
    else if |d| == 1 then Join(d[0], 0)
    else Join(d[0], d[1]) + WordSum(d[2..])
  }

  function Fold(s: nat): (r: Half) {
    if s < 0x10000 then s else Fold(s % 0x10000 + s / 0x10000)
  }

  /** htons on a little-endian machine. */
  function Swap(h: Half): Half { h % 256 * 256 + h / 256 }

  /** The checksum as the field holds it. */
  function InternetChecksum(d: seq<Byte>): Half {
    Swap(0xFFFF - Fold(WordSum(d) % WRAP))
  }

  /** Folding keeps the sum modulo 65535, and zero only for zero. */
  lemma {:induction false} FoldIs(s: nat)
    ensures Fold(s) == if s == 0 then 0 else if s % 65535 == 0 then 65535 else s % 65535
  {
    if s >= 0x10000 {
      var h, l := s / 0x10000, s % 0x10000;
      FoldIs(l + h);
      CongruentBy(l + h, s, h);
    } else {
      SmallMod(s);
    }
  }

  lemma CongruentBy(a: nat, b: nat, k: nat)
    requires b == a + 65535 * k
    ensures a % 65535 == b % 65535
  {
    UniqueRest(b, a / 65535 + k, a % 65535);
  }

  lemma UniqueRest(a: nat, q: nat, r: nat)
    requires a == 65535 * q + r && r < 65535
    ensures a % 65535 == r
  {
  }

  lemma SmallMod(s: nat)
    requires s < 0x10000
    ensures s % 65535 == if s == 65535 then 0 else s
  {
  }

  lemma {:induction false} WordSumBound(d: seq<Byte>)
    ensures WordSum(d) <= (|d| + 1) / 2 * 65535
  {
    if |d| >= 2 { WordSumBound(d[2..]); }
  }

  lemma {:induction false} WordSumAppend(a: seq<Byte>, b: seq<Byte>)
    requires |a| % 2 == 0
    ensures WordSum(a + b) == WordSum(a) + WordSum(b)
  {
    if |a| == 0 {
      assert a + b == b;
    } else {
      WordSumAppend(a[2..], b);
      assert (a + b)[2..] == a[2..] + b;
    }
  }

  // ---------------------------------------------------------------- the two functions

  /** The folding loop. */
  method FoldSum(s: Word) returns (r: Half)
    ensures r == Fold(s)
  {
    var sum := s;
    while sum / 0x10000 != 0
      invariant Fold(sum) == Fold(s)
      decreases sum
    {
      sum := sum % 0x10000 + sum / 0x10000;
    }
    r := sum;
  }

  /** Adding the bytes to a running sum, modulo 2^32. */
  method AddHalves(start: Word, data: seq<Byte>) returns (sum: Word)
    ensures sum == (start + WordSum(data)) % WRAP
  {
    sum := start;
    var i := 0;
    while |data| - i > 1
      invariant 0 <= i <= |data| && (sum + WordSum(data[i..])) % WRAP == (start + WordSum(data)) % WRAP
    {
      var h := Join(data[i], data[i + 1]);
      ghost var rest := WordSum(data[i + 2..]);
      assert data[i..][2..] == data[i + 2..];
      WrapAdd(sum + h, rest);
      sum := (sum + h) % WRAP;
      i := i + 2;
    }
    if i < |data| {
      sum := (sum + Join(data[i], 0)) % WRAP;
    }
  }

  lemma WrapAdd(a: nat, b: nat)
    ensures (a % WRAP + b) % WRAP == (a + b) % WRAP
  {
    var q := a / WRAP;
    assert a + b == WRAP * q + (a % WRAP + b);
    WrapRest(a % WRAP + b, q);
  }

  lemma WrapRest(a: nat, q: nat)
    ensures (WRAP * q + a) % WRAP == a % WRAP
  {
    var n, r := a / WRAP, a % WRAP;
    assert WRAP * q + a == WRAP * (q + n) + r;
    WrapUnique(WRAP * q + a, q + n, r);
  }

  lemma WrapUnique(a: nat, q: nat, r: nat)
    requires a == WRAP * q + r && r < WRAP
    ensures a % WRAP == r
  {
  }

  /** net_checksum, for any length. */
  method NetChecksum(data: seq<Byte>) returns (r: Half)
    ensures r == InternetChecksum(data)
  {
    hide Fold;
    hide Swap;
    var sum := AddHalves(0, data);
    var f := FoldSum(sum);
    r := Swap(0xFFFF - f);
  }

  /** The pseudo header of section 3.1 of RFC 793 in network order. */
  function PseudoHeader(src: Word, dst: Word, len: Half): (p: seq<Byte>)
    ensures |p| == 12
  {
    BigEndian(src) + BigEndian(dst) + [0, IP_PROTO_TCP, len / 256, len % 256]
  }

  function BigEndian(w: Word): (p: seq<Byte>)
    ensures |p| == 4
  {
    var h, l := w / 0x10000, w % 0x10000;
    [h / 256, h % 256, l / 256, l % 256]
  }

  lemma FourBytes(p: seq<Byte>)
    requires |p| == 4
    ensures WordSum(p) == Join(p[0], p[1]) + Join(p[2], p[3])
  {
    assert WordSum(p[2..]) == Join(p[2], p[3]) + WordSum(p[2..][2..]);
  }

  lemma BigEndianSum(w: Word)
    ensures WordSum(BigEndian(w)) == w / 0x10000 + w % 0x10000
  {
    var p := BigEndian(w);
    FourBytes(p);
    assert WordSum(p) == Join(p[0], p[1]) + Join(p[2], p[3]);
  }

  lemma PseudoSum(src: Word, dst: Word, len: Half)
    ensures WordSum(PseudoHeader(src, dst, len)) ==
      src / 0x10000 + src % 0x10000 + dst / 0x10000 + dst % 0x10000 + IP_PROTO_TCP + len
  {
    var t: seq<Byte> := [0, IP_PROTO_TCP, len / 256, len % 256];
    FourBytes(t);
    assert WordSum(t) == IP_PROTO_TCP + len;
    WordSumAppend(BigEndian(src) + BigEndian(dst), t);
    WordSumAppend(BigEndian(src), BigEndian(dst));
    BigEndianSum(src);
    BigEndianSum(dst);
  }

  /** tcp_checksum is the checksum of the pseudo header followed by the segment. */
  method TcpChecksum(src: Word, dst: Word, seg: seq<Byte>) returns (r: Half)
    requires |seg| < 0x10000
    ensures r == InternetChecksum(PseudoHeader(src, dst, |seg|) + seg)
  {
    hide WordSum;
    hide Fold;
    hide Swap;
    hide PseudoHeader;
    var start := src / 0x10000 + src % 0x10000 + dst / 0x10000 + dst % 0x10000 + IP_PROTO_TCP + |seg|;
    PseudoSum(src, dst, |seg|);
    WordSumAppend(PseudoHeader(src, dst, |seg|), seg);
    var sum := AddHalves(start, seg);
    var f := FoldSum(sum);
    r := Swap(0xFFFF - f);
  }

  /** The pseudo header byte by byte: two addresses, a zero, the protocol number 6, and the length of the segment. */
  lemma PseudoHeaderBytes(src: Word, dst: Word, len: Half)
    ensures var p := PseudoHeader(src, dst, len);
            && p[0] == src / 0x100_0000 && p[1] == src / 0x1_0000 % 256 && p[2] == src / 256 % 256 && p[3] == src % 256
            && p[4] == dst / 0x100_0000 && p[5] == dst / 0x1_0000 % 256 && p[6] == dst / 256 % 256 && p[7] == dst % 256
            && p[8] == 0 && p[9] == 6 && p[10] == len / 256 && p[11] == len % 256
  {
    BigEndianBytes(src);
    BigEndianBytes(dst);
    hide BigEndian;
    var p := PseudoHeader(src, dst, len);
    assert p[..4] == BigEndian(src) && p[4..8] == BigEndian(dst);
  }

  /** The highest byte comes first. */
  lemma BigEndianBytes(w: Word)
    ensures var p := BigEndian(w);
            p[0] == w / 0x100_0000 && p[1] == w / 0x1_0000 % 256 && p[2] == w / 256 % 256 && p[3] == w % 256
  {
  }

  // ---------------------------------------------------------------- what it is for

  /** A packet of odd length has the checksum of the packet filled up with a zero byte (RFC 1071, section 4.1). */
  lemma OddLength(d: seq<Byte>)
    requires |d| % 2 == 1
    ensures InternetChecksum(d + [0]) == InternetChecksum(d)
  {
    OddSum(d);
  }

  lemma {:induction false} OddSum(d: seq<Byte>)
    requires |d| % 2 == 1
    ensures WordSum(d + [0]) == WordSum(d)
  {
    if |d| > 1 {
      OddSum(d[2..]);
      assert (d + [0])[2..] == d[2..] + [0];
    }
  }

  /** The example of section 3 of RFC 1071: the sum is 0xDDF2, and the field reads 0x22, 0x0D on the wire. */
  lemma ExamplePacket()
    ensures LowFirst(InternetChecksum([0x00, 0x01, 0xF2, 0x03, 0xF4, 0xF5, 0xF6, 0xF7])) == [0x22, 0x0D]
  {
    var a: seq<Byte>, b: seq<Byte> := [0x00, 0x01, 0xF2, 0x03], [0xF4, 0xF5, 0xF6, 0xF7];
    assert WordSum(a + b) == 0x2_DDF0 by {
      hide WordSum;
      FourBytes(a);
      FourBytes(b);
      WordSumAppend(a, b);
    }
    hide WordSum;
    assert Fold(0x2_DDF0) == Fold(0xDDF2);
    assert [0x00, 0x01, 0xF2, 0x03, 0xF4, 0xF5, 0xF6, 0xF7] == a + b;
  }

  function LowFirst(h: Half): (p: seq<Byte>)
    ensures |p| == 2
  {
    [h % 256, h / 256]
  }

  /** A 16-bit field stored by a little-endian machine. */
  function StoreHalf(d: seq<Byte>, f: nat, h: Half): (r: seq<Byte>)
    requires f + 2 <= |d|
    ensures |r| == |d|
  {
    d[..f] + LowFirst(h) + d[f + 2..]
  }

  /** The half at an even offset as the sum sees it. */
  function HalfAt(d: seq<Byte>, f: nat): Half
    requires f + 2 <= |d|
  {
    Join(d[f], d[f + 1])
  }

  lemma StoredSum(d: seq<Byte>, f: nat, h: Half)
    requires f % 2 == 0 && f + 2 <= |d|
    ensures WordSum(StoreHalf(d, f, h)) == WordSum(d) - HalfAt(d, f) + Swap(h)
    ensures WordSum(d) >= HalfAt(d, f)
  {
    hide *;
    StoreParts(d, f, h);
    PartsSum(d[..f], d[f..f + 2], d[f + 2..]);
    PartsSum(d[..f], LowFirst(h), d[f + 2..]);
    SwapJoin(h);
  }

  lemma StoreParts(d: seq<Byte>, f: nat, h: Half)
    requires f + 2 <= |d|
    ensures d == d[..f] + d[f..f + 2] + d[f + 2..] && HalfAt(d, f) == Join(d[f..f + 2][0], d[f..f + 2][1])
    ensures StoreHalf(d, f, h) == d[..f] + LowFirst(h) + d[f + 2..]
  {
    hide LowFirst;
  }

  lemma SwapJoin(h: Half)
    ensures Swap(h) == Join(LowFirst(h)[0], LowFirst(h)[1])
  {
  }

  lemma PartsSum(a: seq<Byte>, m: seq<Byte>, c: seq<Byte>)
    requires |a| % 2 == 0 && |m| == 2
    ensures WordSum(a + m + c) == WordSum(a) + Join(m[0], m[1]) + WordSum(c)
  {
    hide WordSum;
    hide Join;
    WordSumAppend(a, m + c);
    HalfSum(m, c);
    assert a + m + c == a + (m + c);
  }

  lemma HalfSum(a: seq<Byte>, b: seq<Byte>)
    requires |a| == 2
    ensures WordSum(a + b) == Join(a[0], a[1]) + WordSum(b)
  {
    assert (a + b)[2..] == b;
  }

  /** For packets whose sum cannot wrap, the checksum is zero exactly when the sum is a nonzero multiple of 65535. */
  lemma VerifiesIff(d: seq<Byte>)
    requires |d| <= 0x1_0000 + 12
    ensures InternetChecksum(d) == 0 <==> WordSum(d) > 0 && WordSum(d) % 65535 == 0
    ensures WordSum(d) < WRAP
  {
    hide *;
    SmallSum(d);
    FoldIs(WordSum(d));
    ChecksumOf(d);
    SwapZero(0xFFFF - Fold(WordSum(d)));
  }

  lemma SmallSum(d: seq<Byte>)
    requires |d| <= 0x1_0000 + 12
    ensures WordSum(d) < WRAP
  {
    hide WordSum;
    WordSumBound(d);
  }

  /** Without a wrap the checksum is the complement of the folded sum. */
  lemma ChecksumOf(d: seq<Byte>)
    requires WordSum(d) < WRAP
    ensures InternetChecksum(d) == Swap(0xFFFF - Fold(WordSum(d)))
  {
    hide Fold;
    hide WordSum;
    hide Swap;
    WrapUnique(WordSum(d), 0, WordSum(d));
  }

  lemma SwapZero(h: Half)
    ensures Swap(h) == 0 <==> h == 0
  {
  }

  lemma SwapSwap(h: Half)
    ensures Swap(Swap(h)) == h
  {
    var a, b := h / 256, h % 256;
    Digits(b, a);
    assert Swap(h) == b * 256 + a;
  }

  lemma Digits(a: Byte, b: Byte)
    ensures (a as int * 256 + b) / 256 == a && (a as int * 256 + b) % 256 == b
  {
  }

  /** Storing the checksum of a packet whose field was zero makes the packet verify. */
  lemma StoredChecksumVerifies(d: seq<Byte>, f: nat)
    requires |d| <= 0x1_0000 + 12 && f % 2 == 0 && f + 2 <= |d| && d[f] == 0 && d[f + 1] == 0
    ensures InternetChecksum(StoreHalf(d, f, InternetChecksum(d))) == 0
  {
    hide *;
    var s := WordSum(d);
    SmallSum(d);
    ChecksumOf(d);
    StoredSum(d, f, InternetChecksum(d));
    ZeroHalf(d, f);
    SwapSwap(0xFFFF - Fold(s));
    FoldIs(s);
    var k := (s - Fold(s)) / 65535;
    FoldMultiple(s);
    UniqueRest(s - Fold(s) + 65535, k + 1, 0);
    VerifiesIff(StoreHalf(d, f, InternetChecksum(d)));
  }

  lemma ZeroHalf(d: seq<Byte>, f: nat)
    requires f + 2 <= |d| && d[f] == 0 && d[f + 1] == 0
    ensures HalfAt(d, f) == 0
  {
  }

  lemma FoldMultiple(s: nat)
    ensures Fold(s) <= s && (s - Fold(s)) == 65535 * ((s - Fold(s)) / 65535)
  {
    hide Fold;
    FoldIs(s);
    var q := s / 65535;
    if s > 0 && s % 65535 == 0 {
      assert s - Fold(s) == 65535 * (q - 1);
    } else {
      assert s - Fold(s) == 65535 * q;
    }
  }

  /** A TCP segment stamped by tcp_transmit (its checksum field lies at offset 16) verifies under its pseudo header. */
  lemma StampedSegmentVerifies(src: Word, dst: Word, seg: seq<Byte>)
    requires 18 <= |seg| < 0x10000 && seg[16] == 0 && seg[17] == 0
    ensures var pseudo := PseudoHeader(src, dst, |seg|);
            InternetChecksum(pseudo + StoreHalf(seg, 16, InternetChecksum(pseudo + seg))) == 0
  {
    hide PseudoHeader;
    hide InternetChecksum;
    hide LowFirst;
    var p := PseudoHeader(src, dst, |seg|);
    var c := InternetChecksum(p + seg);
    StoredChecksumVerifies(p + seg, 28);
    assert StoreHalf(p + seg, 28, c) == p + StoreHalf(seg, 16, c);
  }

  /** A change confined to one half of a packet that verifies goes unnoticed exactly when it trades the two zeros of
      one's complement arithmetic for each other (and leaves the packet not all zero). */
  lemma ChangedHalfNoticed(d: seq<Byte>, f: nat, x: Byte, y: Byte)
    requires |d| <= 0x1_0000 && f % 2 == 0 && f + 2 <= |d| && InternetChecksum(d) == 0
    ensures InternetChecksum(d[f := x][f + 1 := y]) == 0 <==>
      || (d[f] == x && d[f + 1] == y)
      || (d[f] == 0 && d[f + 1] == 0 && x == 0xFF && y == 0xFF)
      || (d[f] == 0xFF && d[f + 1] == 0xFF && x == 0 && y == 0 && WordSum(d) > 0xFFFF)
  {
    hide *;
    StoreTwo(d, f, x, y);
    var h := JoinedHalf(y, x);
    VerifiesIff(d);
    VerifiesIff(StoreHalf(d, f, h));
    StoredSum(d, f, h);
    ChangedSum(WordSum(d), HalfAt(d, f), Swap(h));
    SameHalf(d, f, x, y);
  }

  lemma JoinedHalf(a: Byte, b: Byte) returns (h: Half)
    ensures h == Join(a, b)
  {
    h := a * 256 + b;
  }

  lemma SameHalf(d: seq<Byte>, f: nat, x: Byte, y: Byte)
    requires f + 2 <= |d|
    ensures 0 <= Join(x, y) < 0x10000
    ensures Join(x, y) == HalfAt(d, f) <==> d[f] == x && d[f + 1] == y
    ensures HalfAt(d, f) == 0 <==> d[f] == 0 && d[f + 1] == 0
    ensures HalfAt(d, f) == 0xFFFF <==> d[f] == 0xFF && d[f + 1] == 0xFF
    ensures Join(x, y) == 0 <==> x == 0 && y == 0
    ensures Join(x, y) == 0xFFFF <==> x == 0xFF && y == 0xFF
  {
  }

  /** Two bytes stored one by one. */
  lemma StoreTwo(d: seq<Byte>, f: nat, x: Byte, y: Byte)
    requires f + 2 <= |d|
    ensures StoreHalf(d, f, Join(y, x)) == d[f := x][f + 1 := y] && Swap(Join(y, x)) == Join(x, y)
  {
    var h := Join(y, x);
    assert h % 256 == x && h / 256 == y;
    assert d[f := x][f + 1 := y] == d[..f] + [x, y] + d[f + 2..];
  }

  lemma ChangedSum(s: nat, a: Half, b: Half)
    requires s > 0 && s % 65535 == 0 && a <= s
    ensures s - a + b > 0 && (s - a + b) % 65535 == 0 <==>
      b == a || (a == 0 && b == 0xFFFF) || (a == 0xFFFF && b == 0 && s > 0xFFFF)
  {
    var q := s / 65535;
    if b >= a { Shift(s, q, b - a); } else { ShiftDown(s, q, a - b); }
  }

  lemma Shift(s: nat, q: nat, x: Half)
    requires s == 65535 * q
    ensures (s + x) % 65535 == 0 <==> x == 0 || x == 65535
  {
    if x == 65535 { UniqueRest(s + x, q + 1, 0); } else { UniqueRest(s + x, q, x); }
  }

  lemma ShiftDown(s: nat, q: nat, x: Half)
    requires s == 65535 * q && 0 < x <= s
    ensures (s - x) % 65535 == 0 <==> x == 65535
  {
    UniqueRest(s - x, q - 1, 65535 - x);
  }

  /** The order of the halves does not matter: exchanging two of them is never noticed. */
  lemma ExchangeUnnoticed(a: seq<Byte>, x: seq<Byte>, b: seq<Byte>, y: seq<Byte>, c: seq<Byte>)
    requires |a| % 2 == 0 && |b| % 2 == 0 && |x| == 2 && |y| == 2
    ensures InternetChecksum(a + x + b + y + c) == InternetChecksum(a + y + b + x + c)
  {
    SplitSum(a, x, b, y, c);
    SplitSum(a, y, b, x, c);
  }

  lemma SplitSum(a: seq<Byte>, x: seq<Byte>, b: seq<Byte>, y: seq<Byte>, c: seq<Byte>)
    requires |a| % 2 == 0 && |b| % 2 == 0 && |x| == 2 && |y| == 2
    ensures WordSum(a + x + b + y + c) == WordSum(a) + WordSum(x) + WordSum(b) + WordSum(y) + WordSum(c)
  {
    WordSumAppend(a + x + b + y, c);
    WordSumAppend(a + x + b, y);
    WordSumAppend(a + x, b);
    WordSumAppend(a, x);
  }
}
