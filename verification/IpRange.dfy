/** Ranges of IP addresses: byte-wise masks and lexicographic bounds against prefixes. */
module IpRange {
  import opened Wrappers
  import opened Arithmetic
  import opened Bits
  import opened Bytes

  /** Four or sixteen bytes. */
  type IP = seq<Byte>

  const V4_LEN: nat := 4
  const V6_LEN: nat := 16

  /** The first twelve bytes of an IPv4 address in IPv6 form. */
  const V4_PREFIX: IP := [0, 0, 0, 0, 0, 0, 0, 0, 0, 0, 0xFF, 0xFF]

  function To16(ip: IP): IP {
    if |ip| == V4_LEN then V4_PREFIX + ip else if |ip| == V6_LEN then ip else []
  }

  function To4(ip: IP): Option<IP> {
    if |ip| == V4_LEN then Some(ip)
    else if |ip| == V6_LEN && ip[..12] == V4_PREFIX then Some(ip[12..])
    else None
  }

  /** `bytes.Compare(a, b) <= 0`. */
  predicate Leq(a: IP, b: IP) {
    a == [] || (b != [] && (a[0] < b[0] || (a[0] == b[0] && Leq(a[1..], b[1..]))))
  }

  predicate Within(ip: IP, left: IP, right: IP) {
    Leq(left, ip) && Leq(ip, right)
  }

  datatype IPRange = IPRange(left: IP, right: IP) {
    predicate Contains(ip: IP) {
      Within(To16(ip), left, right)
    }
  }

  // ----- masks (section 3.1 of RFC 4632)

  function AndByte(x: Byte, m: Byte): Byte {
    BytePowers();
    BitAnd(8, x, m)
  }

  /** `x | ^m` */
  function OrNotByte(x: Byte, m: Byte): Byte {
    BytePowers();
    BitOr(8, x, BitNot(8, m))
  }

  /** A byte whose first `n` bits are set: `^(0xff >> n)`. */
  function MaskByte(n: nat): Byte
    requires n <= 8
  {
    BytePowers();
    HighOnesIsNot(8 - n, 8);
    BitNot(8, Pow2(8 - n) - 1)
  }

  /** `IP.Mask` */
  function And(a: IP, m: IP): (r: IP)
    requires |a| == |m|
    ensures |r| == |a|
  {
    if a == [] then [] else [AndByte(a[0], m[0])] + And(a[1..], m[1..])
  }

  /** `lastByMask`: the highest address of a network. */
  function OrNot(a: IP, m: IP): (r: IP)
    requires |a| == |m|
    ensures |r| == |a|
  {
    if a == [] then [] else [OrNotByte(a[0], m[0])] + OrNot(a[1..], m[1..])
  }

  /** How many of `p` bits are in the first byte. */
  function Head(p: nat): (n: nat)
    ensures n <= 8 && n <= p
    ensures n == 8 || n == p
  {
    if p >= 8 then 8 else p
  }

  /** `net.CIDRMask`: `ones` set bits in `len` bytes. */
  function CidrMask(ones: nat, len: nat): (m: IP)
    requires ones <= 8 * len
    ensures |m| == len
  {
    if len == 0 then [] else [MaskByte(Head(ones))] + CidrMask(ones - Head(ones), len - 1)
  }

  /** The number of set bits of a byte, if they all come first. */
  function BitsOf(b: Byte): (r: Option<nat>)
    ensures r.Some? ==> r.value <= 8
    ensures r == Some(8) ==> b == 0xFF
  {
    BytePowers();
    Shifts(b, 8)
  }

  /** Shift a byte left while its first bit is set; nothing may be left. */
  function Shifts(b: Byte, fuel: nat): (r: Option<nat>)
    ensures r.Some? ==> r.value <= fuel
    decreases fuel
  {
    if b == 0 then Some(0)
    else if b < 0x80 || fuel == 0 then None
    else
      var rest := Shifts(2 * b - 0x100, fuel - 1);
      if rest.None? then None else Some(1 + rest.value)
  }

  /** `IPMask.Size`: the number of set bits, if they all come first. */
  function MaskSize(m: IP): (r: Option<nat>)
    ensures r.Some? ==> r.value <= 8 * |m|
  {
    if m == [] then Some(0)
    else if m[0] == 0xFF then
      var rest := MaskSize(m[1..]);
      if rest.None? then None else Some(8 + rest.value)
    else if forall i :: 1 <= i < |m| ==> m[i] == 0 then BitsOf(m[0])
    else None
  }

  lemma MaskByteIs(n: nat)
    requires n <= 8
    ensures n > 0 ==> MaskByte(n) >= 0x80 && MaskByte(n - 1) == 2 * MaskByte(n) - 0x100
    ensures MaskByte(n) == 0 <==> n == 0
    ensures MaskByte(n) == 0xFF <==> n == 8
  {
    BytePowers();
    HighOnesIsNot(8 - n, 8);
    if n > 0 {
      HighOnesIsNot(8 - (n - 1), 8);
    }
    hide Pow2;
  }

  lemma {:induction false} ShiftsOfMask(b: Byte, n: nat, fuel: nat)
    requires n <= 8 && n <= fuel
    ensures Shifts(b, fuel) == Some(n) <==> b == MaskByte(n)
    decreases n
  {
    hide MaskByte;
    MaskByteIs(n);
    if n > 0 && b >= 0x80 {
      ShiftsOfMask(2 * b - 0x100, n - 1, fuel - 1);
    }
  }

  lemma MaskCons(p: nat, len: nat)
    requires len > 0 && p <= 8 * len
    ensures CidrMask(p, len) == [MaskByte(Head(p))] + CidrMask(p - Head(p), len - 1)
  {
  }

  lemma {:induction false} NoOnes(m: IP)
    ensures m == CidrMask(0, |m|) <==> forall i :: 0 <= i < |m| ==> m[i] == 0
  {
    hide CidrMask, MaskByte;
    if m != [] {
      NoOnes(m[1..]);
      MaskByteIs(0);
      MaskCons(0, |m|);
      assert m == [m[0]] + m[1..];
      ConsEqual(m[0], m[1..], MaskByte(0), CidrMask(0, |m| - 1));
      assert forall i :: 0 <= i < |m| - 1 ==> m[1..][i] == m[1 + i];
    }
  }

  /** Exactly the masks of prefixes have a size, and it is the prefix length. */
  lemma {:induction false} SizeOfMask(m: IP, p: nat)
    requires p <= 8 * |m|
    ensures MaskSize(m) == Some(p) <==> m == CidrMask(p, |m|)
  {
    hide CidrMask, MaskByte, Shifts, Head;
    if m != [] {
      var n := Head(p);
      MaskByteIs(n);
      ShiftsOfMask(m[0], n, 8);
      MaskCons(p, |m|);
      assert m == [m[0]] + m[1..];
      ConsEqual(m[0], m[1..], MaskByte(n), CidrMask(p - n, |m| - 1));
      if n == 8 {
        SizeOfMask(m[1..], p - 8);
      } else {
        NoOnes(m[1..]);
        RestIsZero(m);
      }
    }
  }

  lemma RestIsZero(m: IP)
    requires m != []
    ensures (forall i :: 0 <= i < |m[1..]| ==> m[1..][i] == 0) <==> (forall i :: 1 <= i < |m| ==> m[i] == 0)
  {
    assert forall i :: 1 <= i < |m| ==> m[i] == m[1..][i - 1];
  }

  lemma ConsEqual(x: Byte, a: IP, y: Byte, b: IP)
    ensures [x] + a == [y] + b <==> x == y && a == b
  {
    assert ([x] + a)[0] == x && ([y] + b)[0] == y;
    assert ([x] + a)[1..] == a && ([y] + b)[1..] == b;
  }

  // ----- an interval is a prefix

  /** The lowest and the highest value of a byte whose first `n` bits are given. */
  function Lo(a: Byte, n: nat): (r: Byte)
    requires n <= 8
    ensures r <= a
  {
    RoundDownInterval(8 - n, a, a);
    RoundDown(8 - n, a)
  }

  function Hi(a: Byte, n: nat): Byte
    requires n <= 8
  {
    BytePowers();
    OrLowOnes(8 - n, 8, a);
    RoundDown(8 - n, a) + Pow2(8 - n) - 1
  }

  lemma MaskedByte(a: Byte, n: nat)
    requires n <= 8
    ensures AndByte(a, MaskByte(n)) == Lo(a, n) && OrNotByte(Lo(a, n), MaskByte(n)) == Hi(a, n)
  {
    BytePowers();
    HighOnesIsNot(8 - n, 8);
    AndHighOnes(8 - n, 8, a);
    OrLowOnes(8 - n, 8, a);
  }

  lemma ByteInterval(a: Byte, x: Byte, n: nat)
    requires n <= 8
    ensures Lo(a, n) <= x <= Hi(a, n) <==> Lo(x, n) == Lo(a, n)
    ensures n == 8 ==> Lo(a, n) == Hi(a, n) == a
    ensures n == 0 ==> Lo(a, n) == 0 && Hi(a, n) == 0xFF
  {
    BytePowers();
    RoundDownInterval(8 - n, a, x);
    if n == 0 {
      RoundDownInterval(8, 0, a);
    }
  }

  lemma AndCons(x: Byte, a: IP, y: Byte, m: IP)
    requires |a| == |m|
    ensures And([x] + a, [y] + m) == [AndByte(x, y)] + And(a, m)
    ensures OrNot([x] + a, [y] + m) == [OrNotByte(x, y)] + OrNot(a, m)
  {
    assert ([x] + a)[1..] == a && ([y] + m)[1..] == m;
  }

  /** A whole mask works like its first byte, then the rest. */
  lemma Unfold(a: IP, p: nat)
    requires a != [] && p <= 8 * |a|
    ensures var m, n, rest := CidrMask(p, |a|), Head(p), CidrMask(p - Head(p), |a| - 1);
      && And(a, m) == [Lo(a[0], n)] + And(a[1..], rest)
      && OrNot(And(a, m), m) == [Hi(a[0], n)] + OrNot(And(a[1..], rest), rest)
  {
    hide CidrMask, And, OrNot, AndByte, OrNotByte, MaskByte, Lo, Hi, Head;
    var n, rest := Head(p), CidrMask(p - Head(p), |a| - 1);
    MaskCons(p, |a|);
    MaskedByte(a[0], n);
    assert a == [a[0]] + a[1..];
    AndCons(a[0], a[1..], MaskByte(n), rest);
    AndCons(Lo(a[0], n), And(a[1..], rest), MaskByte(n), rest);
  }

  lemma LeqEmpty()
    ensures Leq([], [])
  {
  }

  lemma LeqCons(x: Byte, a: IP, y: Byte, b: IP)
    ensures Leq([x] + a, [y] + b) <==> x < y || (x == y && Leq(a, b))
  {
    assert ([x] + a)[1..] == a && ([y] + b)[1..] == b;
  }

  /** Without a prefix, the interval is everything. */
  lemma {:induction false} ZerosAreLowest(a: IP, ip: IP, none: nat)
    requires |a| == |ip| && none == 0
    ensures var m := CidrMask(none, |a|);
      Within(ip, And(a, m), OrNot(And(a, m), m)) && And(ip, m) == And(a, m)
  {
    hide CidrMask, And, OrNot, Lo, Hi, Leq;
    if a != [] {
      var n := Head(none);
      assert n == 0;
      var m := CidrMask(none - n, |a| - 1);
      Unfold(a, none);
      Unfold(ip, none);
      ByteInterval(a[0], ip[0], n);
      ByteInterval(ip[0], ip[0], n);
      ZerosAreLowest(a[1..], ip[1..], none - n);
      assert ip == [ip[0]] + ip[1..];
      LeqCons(Lo(a[0], n), And(a[1..], m), ip[0], ip[1..]);
      LeqCons(ip[0], ip[1..], Hi(a[0], n), OrNot(And(a[1..], m), m));
    } else {
      LeqEmpty();
      assert ip == [];
    }
  }

  /** The lexicographic interval from the lowest to the highest address of a network
      holds exactly the addresses with its prefix. */
  lemma {:induction false} IntervalIsPrefix(a: IP, ip: IP, p: nat)
    requires |a| == |ip| && p <= 8 * |a|
    ensures var m := CidrMask(p, |a|);
      Within(ip, And(a, m), OrNot(And(a, m), m)) <==> And(ip, m) == And(a, m)
  {
    hide CidrMask, And, OrNot, Lo, Hi, Leq, Head;
    if a != [] {
      var n := Head(p);
      var m := CidrMask(p - n, |a| - 1);
      Unfold(a, p);
      Unfold(ip, p);
      ByteInterval(a[0], ip[0], n);
      IntervalIsPrefix(a[1..], ip[1..], p - n);
      if n < 8 {
        ZerosAreLowest(a[1..], ip[1..], p - n);
      }
      var low, high, same := And(a[1..], m), OrNot(And(a[1..], m), m), And(ip[1..], m);
      assert ip == [ip[0]] + ip[1..];
      LeqCons(Lo(a[0], n), low, ip[0], ip[1..]);
      LeqCons(ip[0], ip[1..], Hi(a[0], n), high);
      ConsEqual(Lo(ip[0], n), same, Lo(a[0], n), low);
    } else {
      LeqEmpty();
      assert ip == [];
    }
  }

  // ----- leaving out the lowest and the highest address

  /** `ip[len(ip)-1] |= 1` */
  function SetLowBit(ip: IP): (r: IP)
    requires ip != []
    ensures |r| == |ip|
  {
    BytePowers();
    ip[|ip| - 1 := BitOr(8, ip[|ip| - 1], 1)]
  }

  /** `ip[len(ip)-1] &^= 1` */
  function ClearLowBit(ip: IP): (r: IP)
    requires ip != []
    ensures |r| == |ip|
  {
    BytePowers();
    ip[|ip| - 1 := BitAnd(8, ip[|ip| - 1], BitNot(8, 1))]
  }

  lemma LowBitOfByte(x: Byte)
    ensures BitOr(8, x, 1) == x - x % 2 + 1
    ensures Pow2(8) == 0x100 && BitAnd(8, x, BitNot(8, 1)) == x - x % 2
  {
    BytePowers();
    OrZero(7, x / 2);
    AndOnes(7, x / 2);
  }

  /** For an even address, not being below its successor is being above it. */
  lemma {:induction false} AboveLowest(left: IP, ip: IP)
    requires |left| == |ip| > 0 && left[|left| - 1] % 2 == 0
    ensures Leq(SetLowBit(left), ip) <==> Leq(left, ip) && ip != left
  {
    var x, rest := left[0], left[1..];
    LowBitOfByte(left[|left| - 1]);
    assert ip == [ip[0]] + ip[1..] && left == [x] + rest;
    hide BitOr;
    if |left| == 1 {
      assert SetLowBit(left) == [x + 1] + rest;
      LeqCons(x + 1, rest, ip[0], ip[1..]);
    } else {
      assert SetLowBit(left) == [x] + SetLowBit(rest);
      AboveLowest(rest, ip[1..]);
      LeqCons(x, SetLowBit(rest), ip[0], ip[1..]);
    }
    LeqCons(x, rest, ip[0], ip[1..]);
    ConsEqual(ip[0], ip[1..], x, rest);
  }

  lemma {:induction false} BelowHighest(ip: IP, right: IP)
    requires |right| == |ip| > 0 && right[|right| - 1] % 2 == 1
    ensures Leq(ip, ClearLowBit(right)) <==> Leq(ip, right) && ip != right
  {
    var x, rest := right[0], right[1..];
    LowBitOfByte(right[|right| - 1]);
    assert ip == [ip[0]] + ip[1..] && right == [x] + rest;
    hide BitAnd;
    if |right| == 1 {
      assert ClearLowBit(right) == [x - 1] + rest;
      LeqCons(ip[0], ip[1..], x - 1, rest);
    } else {
      assert ClearLowBit(right) == [x] + ClearLowBit(rest);
      BelowHighest(ip[1..], rest);
      LeqCons(ip[0], ip[1..], x, ClearLowBit(rest));
    }
    LeqCons(ip[0], ip[1..], x, rest);
    ConsEqual(ip[0], ip[1..], x, rest);
  }

  /** With two host bits the lowest address ends in 00, the highest in 11. */
  lemma {:induction false} HostBits(a: IP, p: nat)
    requires a != [] && p + 2 <= 8 * |a|
    ensures var m := CidrMask(p, |a|);
      var low, high := And(a, m), OrNot(And(a, m), m);
      low[|a| - 1] % 4 == 0 && high[|a| - 1] % 4 == 3
  {
    hide CidrMask, And, OrNot, Lo, Hi, Head;
    Unfold(a, p);
    var n := Head(p);
    if |a| == 1 {
      HostBitsOfByte(a[0], n);
    } else {
      HostBits(a[1..], p - n);
    }
  }

  lemma HostBitsOfByte(a: Byte, n: nat)
    requires n <= 6
    ensures Lo(a, n) % 4 == 0 && Hi(a, n) % 4 == 3
  {
    MultiplesOfFour(8 - n, a);
    hide RoundDown, Pow2;
  }

  // ----- addresses of both families

  /** What a range between two addresses with one prefix holds: only addresses with
      that prefix. */
  lemma {:induction false} CommonPrefix(prefix: IP, left: IP, right: IP, ip: IP)
    requires |ip| >= |prefix|
    ensures Within(ip, prefix + left, prefix + right)
            <==> ip[..|prefix|] == prefix && Within(ip[|prefix|..], left, right)
  {
    if prefix == [] {
      assert prefix + left == left && prefix + right == right && ip[0..] == ip;
    } else {
      var x, rest := prefix[0], prefix[1..];
      assert prefix + left == [x] + (rest + left) && prefix + right == [x] + (rest + right);
      assert ip == [ip[0]] + ip[1..] && prefix == [x] + rest;
      assert ip[..|prefix|] == [ip[0]] + ip[1..][..|rest|];
      assert ip[|prefix|..] == ip[1..][|rest|..];
      CommonPrefix(rest, left, right, ip[1..]);
      hide Leq;
      LeqCons(x, rest + left, ip[0], ip[1..]);
      LeqCons(ip[0], ip[1..], x, rest + right);
      ConsEqual(ip[0], ip[1..][..|rest|], x, rest);
    }
  }

  // ----- parsing, after the text has been split and its parts been parsed

  /** `addrLen`: IPv4 addresses come in IPv6 form. */
  function Family(addr: IP): nat {
    if To4(addr).Some? then V4_LEN else V6_LEN
  }

  /** The address in the form of its family. */
  function Own(addr: IP): (a: IP)
    requires |addr| == V6_LEN
    ensures |a| == Family(addr)
  {
    if To4(addr).Some? then To4(addr).value else addr
  }

  /** The prefix length that a mask in IP form or a number stands for; masks are for
      IPv4 only. */
  function PrefixLength(addr: IP, maskAsIP: Option<IP>, number: Option<int>): (p: Option<nat>)
    ensures p.Some? ==> p.value <= 8 * Family(addr)
  {
    match maskAsIP
    case Some(mask) => if To4(mask).None? || Family(addr) != V4_LEN then None else MaskSize(To4(mask).value)
    case None =>
      match number
      case Some(n) => if 0 <= n <= 8 * Family(addr) then Some(n) else None
      case None => None
  }

  /** `ip` is in the network of `addr`, and is not its lowest or highest address unless
      there are no others. IPv6 networks may hold IPv4 addresses in IPv6 form. */
  ghost predicate InNetwork(addr: IP, p: nat, ip: IP)
    requires |addr| == V6_LEN && p <= 8 * Family(addr)
  {
    var full := To16(ip);
    && |full| == V6_LEN
    && (Family(addr) == V4_LEN ==> To4(full).Some?)
    && HasPrefix(Own(addr), p, if Family(addr) == V4_LEN then To4(full).value else full)
  }

  predicate HasPrefix(a: IP, p: nat, ip: IP)
    requires |a| == |ip| && p <= 8 * |a|
  {
    var m := CidrMask(p, |a|);
    && And(ip, m) == And(a, m)
    && (p + 2 <= 8 * |a| ==> ip != And(a, m) && ip != OrNot(And(a, m), m))
  }

  /** The bounds, in the form of the family. */
  function Bounds(a: IP, p: nat): (b: (IP, IP))
    requires a != [] && p <= 8 * |a|
    ensures |b.0| == |b.1| == |a|
  {
    var m := CidrMask(p, |a|);
    var low, high := And(a, m), OrNot(And(a, m), m);
    if p + 2 <= 8 * |a| then (SetLowBit(low), ClearLowBit(high)) else (low, high)
  }

  lemma BoundsHold(a: IP, p: nat, ip: IP)
    requires a != [] && p <= 8 * |a| && |ip| == |a|
    ensures Within(ip, Bounds(a, p).0, Bounds(a, p).1) <==> HasPrefix(a, p, ip)
  {
    hide CidrMask, And, OrNot, SetLowBit, ClearLowBit, Leq;
    var m := CidrMask(p, |a|);
    var low, high := And(a, m), OrNot(And(a, m), m);
    IntervalIsPrefix(a, ip, p);
    assert Within(ip, low, high) <==> And(ip, m) == low;
    if p + 2 <= 8 * |a| {
      HostBits(a, p);
      AboveLowest(low, ip);
      BelowHighest(ip, high);
      assert Bounds(a, p) == (SetLowBit(low), ClearLowBit(high));
    } else {
      assert Bounds(a, p) == (low, high);
    }
  }

  /** The lower bound is never above the upper one. */
  lemma BoundsOrdered(a: IP, p: nat)
    requires a != [] && p <= 8 * |a|
    ensures Leq(Bounds(a, p).0, Bounds(a, p).1)
  {
    hide CidrMask, And, OrNot, Leq, SetLowBit, ClearLowBit;
    var low := And(a, CidrMask(p, |a|));
    if p + 2 <= 8 * |a| {
      SecondIsInside(a, p);
      BoundsHold(a, p, SetLowBit(low));
    } else {
      MaskTwice(a, p);
      BoundsHold(a, p, low);
    }
  }

  /** With two host bits the second lowest address is neither the lowest nor the highest. */
  lemma SecondIsInside(a: IP, p: nat)
    requires a != [] && p + 2 <= 8 * |a|
    ensures HasPrefix(a, p, SetLowBit(And(a, CidrMask(p, |a|))))
  {
    hide CidrMask, And, OrNot, SetLowBit;
    var m := CidrMask(p, |a|);
    var low, high := And(a, m), OrNot(And(a, m), m);
    MaskTwice(a, p);
    HostBits(a, p);
    LastOfSetLow(low);
    LowBitKeepsPrefix(low, p);
    assert SetLowBit(low)[|a| - 1] != low[|a| - 1] && SetLowBit(low)[|a| - 1] != high[|a| - 1];
  }

  lemma LastOfSetLow(ip: IP)
    requires ip != [] && ip[|ip| - 1] % 4 == 0
    ensures SetLowBit(ip)[|ip| - 1] == ip[|ip| - 1] + 1
  {
    hide BitOr, BitAnd, BitNot, Pow2;
    LowBitOfByte(ip[|ip| - 1]);
  }

  lemma {:induction false} MaskTwice(a: IP, p: nat)
    requires p <= 8 * |a|
    ensures And(And(a, CidrMask(p, |a|)), CidrMask(p, |a|)) == And(a, CidrMask(p, |a|))
  {
    hide CidrMask, And, Lo, Head;
    if a != [] {
      Unfold(a, p);
      var n := Head(p);
      var rest := CidrMask(p - n, |a| - 1);
      var low := And(a, CidrMask(p, |a|));
      assert low[0] == Lo(a[0], n) && low[1..] == And(a[1..], rest);
      Unfold(low, p);
      LoTwice(a[0], n);
      MaskTwice(a[1..], p - n);
    }
  }

  lemma LoTwice(a: Byte, n: nat)
    requires n <= 8
    ensures Lo(Lo(a, n), n) == Lo(a, n)
  {
    ByteInterval(a, Lo(a, n), n);
    hide Pow2;
    LoLeqHi(a, n);
  }

  lemma LoLeqHi(a: Byte, n: nat)
    requires n <= 8
    ensures Lo(a, n) <= Hi(a, n)
  {
  }

  /** With two host bits, the lowest bit is not part of the prefix. */
  lemma {:induction false} LowBitKeepsPrefix(low: IP, p: nat)
    requires low != [] && p + 2 <= 8 * |low| && low[|low| - 1] % 4 == 0
    ensures And(SetLowBit(low), CidrMask(p, |low|)) == And(low, CidrMask(p, |low|))
  {
    hide CidrMask, And, Lo, Hi, Head, BitOr;
    var n, last := Head(p), low[|low| - 1];
    LowBitOfByte(last);
    var next := SetLowBit(low);
    Unfold(low, p);
    Unfold(next, p);
    if |low| == 1 {
      assert next[0] == low[0] + 1 && next[1..] == low[1..];
      LowBitInByte(low[0], n);
    } else {
      assert next[0] == low[0] && next[1..] == SetLowBit(low[1..]);
      LowBitKeepsPrefix(low[1..], p - n);
    }
  }

  lemma LowBitInByte(x: Byte, n: nat)
    requires n <= 6 && x % 4 == 0
    ensures x + 1 < 0x100 && Lo(x + 1, n) == Lo(x, n)
  {
    ByteInterval(x, x, n);
    ByteInterval(x, x + 1, n);
    HostBitsOfByte(x, n);
  }

  /** The bounds of a network, back in IPv6 form, hold exactly the network. */
  lemma RangeIsNetwork(addr: IP, p: nat, ip: IP)
    requires |addr| == V6_LEN && p <= 8 * Family(addr)
    ensures var b := Bounds(Own(addr), p);
      IPRange(To16(b.0), To16(b.1)).Contains(ip) <==> InNetwork(addr, p, ip)
  {
    hide CidrMask, And, OrNot, Bounds, Leq;
    var b, full := Bounds(Own(addr), p), To16(ip);
    if |full| != V6_LEN {
      NothingBelow(To16(b.0));
    } else if Family(addr) == V4_LEN {
      CommonPrefix(V4_PREFIX, b.0, b.1, full);
      BoundsHold(Own(addr), p, full[12..]);
    } else {
      BoundsHold(addr, p, full);
    }
  }

  lemma NothingBelow(left: IP)
    requires left != []
    ensures !Leq(left, [])
  {
  }

  lemma AndAt(a: IP, m: IP, i: nat)
    requires |a| == |m| && i < |a|
    ensures And(a, m)[i] == AndByte(a[i], m[i])
    ensures OrNot(a, m)[i] == OrNotByte(a[i], m[i])
  {
    hide AndByte, OrNotByte;
    if i > 0 {
      AndAt(a[1..], m[1..], i - 1);
    }
  }

  method MaskAddress(ip: IP, mask: IP) returns (r: array<Byte>)
    requires |ip| == |mask|
    ensures fresh(r) && r[..] == And(ip, mask)
  {
    hide And, OrNot, AndByte;
    r := new Byte[|ip|](_ => 0);
    for i := 0 to |ip|
      invariant forall k :: 0 <= k < i ==> r[k] == And(ip, mask)[k]
    {
      AndAt(ip, mask, i);
      r[i] := AndByte(ip[i], mask[i]);
    }
    assert r[..] == And(ip, mask);
  }

  method LastByMask(ip: IP, mask: IP) returns (r: array<Byte>)
    requires |ip| == |mask|
    ensures fresh(r) && r[..] == OrNot(ip, mask)
  {
    hide And, OrNot, OrNotByte;
    r := new Byte[|ip|](_ => 0);
    for i := 0 to |ip|
      invariant forall k :: 0 <= k < i ==> r[k] == OrNot(ip, mask)[k]
    {
      AndAt(ip, mask, i);
      r[i] := OrNotByte(ip[i], mask[i]);
    }
    assert r[..] == OrNot(ip, mask);
  }

  /** `parseCIDRorMask`: the parts of the text before and behind the slash have been
      read as an address, and as an address and a number. */
  method ParseCIDROrMask(addr: Option<IP>, maskAsIP: Option<IP>, number: Option<int>) returns (r: Option<IPRange>)
    requires addr.Some? ==> |addr.value| == V6_LEN
    ensures r.Some? <==> addr.Some? && PrefixLength(addr.value, maskAsIP, number).Some?
    ensures r.Some? ==> Leq(r.value.left, r.value.right) && |r.value.left| == |r.value.right| == V6_LEN
    ensures r.Some? ==> forall ip :: r.value.Contains(ip) <==> InNetwork(addr.value, PrefixLength(addr.value, maskAsIP, number).value, ip)
  {
    hide CidrMask, MaskSize, MaskByte, And, OrNot, Leq, InNetwork, IPRange.Contains;
    if addr.None? {
      return None;
    }
    var addrLen := Family(addr.value);
    var mask: Option<IP>, prefixLen := None, 0;
    if maskAsIP.Some? {
      var mask4 := To4(maskAsIP.value);
      if mask4.Some? && addrLen == V4_LEN {
        var size := MaskSize(mask4.value);
        if size.Some? {
          mask, prefixLen := mask4, size.value;
          SizeOfMask(mask4.value, size.value);
        }
      }
    } else if number.Some? && 0 <= number.value <= 8 * addrLen {
      mask, prefixLen := Some(CidrMask(number.value, addrLen)), number.value;
    }
    if mask.None? {
      return None;
    }
    var own := Own(addr.value);
    var left := MaskAddress(own, mask.value);
    var right := LastByMask(left[..], mask.value);
    if (addrLen == V4_LEN && prefixLen < 31) || (addrLen == V6_LEN && prefixLen < 127) {
      ExcludeEnds(left, right);
    }
    assert (left[..], right[..]) == Bounds(own, prefixLen);
    BoundsOrdered(own, prefixLen);
    ToSixteenKeepsOrder(left[..], right[..]);
    forall ip ensures IPRange(To16(left[..]), To16(right[..])).Contains(ip) <==> InNetwork(addr.value, prefixLen, ip) {
      RangeIsNetwork(addr.value, prefixLen, ip);
    }
    r := Some(IPRange(To16(left[..]), To16(right[..])));
  }

  /** Leave out the lowest and the highest address, in place. */
  method ExcludeEnds(left: array<Byte>, right: array<Byte>)
    requires left != right && left.Length == right.Length > 0
    modifies left, right
    ensures left[..] == SetLowBit(old(left[..])) && right[..] == ClearLowBit(old(right[..]))
  {
    BytePowers();
    left[left.Length - 1] := BitOr(8, left[left.Length - 1], 1);
    right[right.Length - 1] := BitAnd(8, right[right.Length - 1], BitNot(8, 1));
  }

  lemma ToSixteenKeepsOrder(a: IP, b: IP)
    requires |a| == |b| && |a| in {V4_LEN, V6_LEN} && Leq(a, b)
    ensures Leq(To16(a), To16(b)) && |To16(a)| == |To16(b)| == V6_LEN
  {
    if |a| == V4_LEN {
      LeqReflexive(a);
      CommonPrefix(V4_PREFIX, a, b, V4_PREFIX + a);
      assert (V4_PREFIX + a)[12..] == a;
    }
  }

  lemma {:induction false} LeqReflexive(a: IP)
    ensures Leq(a, a)
  {
    if a != [] {
      LeqReflexive(a[1..]);
    }
  }

  /** `parseTwo`: both bounds are included; they must be of one family and in order. */
  function ParseTwo(left: Option<IP>, right: Option<IP>): (r: Option<IPRange>)
    requires left.Some? ==> |left.value| == V6_LEN
    requires right.Some? ==> |right.value| == V6_LEN
  {
    if left.None? || right.None? || Family(left.value) != Family(right.value) || !Leq(left.value, right.value) then None
    else Some(IPRange(left.value, right.value))
  }

  /** A range between two IPv4 addresses holds IPv4 addresses only, in their own order. */
  lemma V4RangeIsV4(left: IP, right: IP, ip: IP)
    requires |left| == |right| == V6_LEN && ParseTwo(Some(left), Some(right)).Some? && To4(left).Some?
    ensures To4(right).Some?
    ensures ParseTwo(Some(left), Some(right)).value.Contains(ip)
            <==> To4(To16(ip)).Some? && Within(To4(To16(ip)).value, To4(left).value, To4(right).value)
  {
    hide Leq;
    var full := To16(ip);
    assert left == V4_PREFIX + left[12..] && right == V4_PREFIX + right[12..];
    if full == [] {
      NothingBelow(left);
    } else {
      CommonPrefix(V4_PREFIX, left[12..], right[12..], full);
    }
  }

  // ----- lexicographic order is the order of numbers

  function Weight(len: nat): (w: nat)
    ensures w > 0
  {
    if len == 0 then 1 else 0x100 * Weight(len - 1)
  }

  /** An address as one big-endian number. */
  function Number(ip: IP): (n: nat)
    ensures n < Weight(|ip|)
  {
    if ip == [] then 0
    else
      var w := Weight(|ip| - 1);
      MulLeq(ip[0], 0xFF, w);
      ip[0] * w + Number(ip[1..])
  }

  /** Big-endian: the first byte counts more than all others together. */
  lemma FirstByteWins(x: nat, r: nat, y: nat, s: nat, w: nat)
    requires r < w && s < w
    ensures x * w + r <= y * w + s <==> x < y || (x == y && r <= s)
  {
    if x < y {
      MulLeq(x + 1, y, w);
    } else if y < x {
      MulLeq(y + 1, x, w);
    }
  }

  lemma {:induction false} LeqIsNumeric(a: IP, b: IP)
    requires |a| == |b|
    ensures Leq(a, b) <==> Number(a) <= Number(b)
  {
    if a != [] {
      LeqIsNumeric(a[1..], b[1..]);
      FirstByteWins(a[0], Number(a[1..]), b[0], Number(b[1..]), Weight(|a| - 1));
    }
  }

  // ----- networks as intervals of numbers

  lemma {:induction false} NumberInjective(a: IP, b: IP)
    requires |a| == |b|
    ensures Number(a) == Number(b) <==> a == b
  {
    LeqIsNumeric(a, b);
    LeqIsNumeric(b, a);
    LeqBothWays(a, b);
  }

  lemma {:induction false} LeqBothWays(a: IP, b: IP)
    requires |a| == |b|
    ensures Leq(a, b) && Leq(b, a) <==> a == b
  {
    if a != [] {
      LeqBothWays(a[1..], b[1..]);
      assert a == [a[0]] + a[1..] && b == [b[0]] + b[1..];
    }
  }

  lemma {:induction false} PowerSum(i: nat, j: nat)
    ensures Pow2(i + j) == Pow2(i) * Pow2(j)
  {
    if i > 0 {
      PowerSum(i - 1, j);
    }
  }

  lemma {:induction false} WeightIsPower(len: nat)
    ensures Weight(len) == Pow2(8 * len)
  {
    if len > 0 {
      WeightIsPower(len - 1);
      PowerSum(8, 8 * (len - 1));
      BytePowers();
    }
  }

  lemma {:induction false} RoundDownIs(k: nat, x: nat)
    ensures RoundDown(k, x) == x / Pow2(k) * Pow2(k)
  {
    if k > 0 {
      Doubles(k, x);
      RoundDownIs(k - 1, x / 2);
      HalfFirst(x, k);
      TwiceAway(x / Pow2(k), Pow2(k - 1));
    }
  }

  function Join(x: nat, w: nat, r: nat): (n: nat) {
    x * w + r
  }

  lemma NumberCons(x: Byte, r: IP)
    ensures Number([x] + r) == Join(x, Weight(|r|), Number(r))
  {
    assert ([x] + r)[1..] == r;
  }

  lemma ShiftedQuotient(x: nat, r: nat, w: nat)
    requires w > 0
    ensures (x * w + r) / w * w == x * w + r / w * w
  {
    DivMod(r, w);
    assert x * w + r == (x + r / w) * w + r % w;
    DivMod(x * w + r, w);
    QuotientIs(x * w + r, (x * w + r) / w, (x * w + r) % w, x + r / w, r % w, w);
    assert (x + r / w) * w == x * w + r / w * w;
  }

  lemma HighQuotient(x: nat, r: nat, k: nat, w: nat)
    requires k > 0 && r < w
    ensures k * w > 0 && (x * w + r) / (k * w) * (k * w) == x / k * k * w
  {
    DivMod(x, k);
    var q, s := x / k, x % k;
    MulLeq(s, k - 1, w);
    assert s * w + r < k * w by {
      assert (k - 1) * w == k * w - w;
    }
    assert x * w + r == q * (k * w) + (s * w + r) by {
      assert (q * k + s) * w == q * (k * w) + s * w;
    }
    DivMod(x * w + r, k * w);
    QuotientIs(x * w + r, (x * w + r) / (k * w), (x * w + r) % (k * w), q, s * w + r, k * w);
    assert q * (k * w) == q * k * w;
  }

  /** `low` and `high` are the first and the last number that share the quotient of `n` by two to
      the power of `h`. */
  ghost predicate Spans(low: nat, high: nat, n: nat, h: nat) {
    var w := Pow2(h); low == n / w * w && high == n / w * w + (w - 1)
  }

  /** The lowest and the highest address of a network, as numbers. */
  lemma {:induction false} NetworkNumbers(a: IP, p: nat)
    requires p <= 8 * |a|
    ensures var m := CidrMask(p, |a|); Spans(Number(And(a, m)), Number(OrNot(And(a, m), m)), Number(a), 8 * |a| - p)
  {
    hide Spans, CidrMask, And, OrNot, Number, Pow2, Weight;
    if a == [] {
      NoBytes();
    } else {
      hide Join, Lo, Hi;
      var n, len := Head(p), |a| - 1;
      var rest := CidrMask(p - n, len);
      var low := And(a[1..], rest);
      var high := OrNot(low, rest);
      Unfold(a, p);
      NetworkNumbers(a[1..], p - n);
      WeightIsPower(len);
      assert a == [a[0]] + a[1..];
      NumberCons(a[0], a[1..]);
      NumberCons(Lo(a[0], n), low);
      NumberCons(Hi(a[0], n), high);
      OneByteMore(a[0], Number(a[1..]), len, p, Number(low), Number(high));
      var m, h := CidrMask(p, |a|), 8 * |a| - p;
      assert h == 8 * len + 8 - p;
      assert Spans(Number(And(a, m)), Number(OrNot(And(a, m), m)), Number(a), h);
    }
  }

  lemma NoBytes()
    ensures var m := CidrMask(0, 0); Spans(Number(And([], m)), Number(OrNot(And([], m), m)), Number([]), 0)
  {
  }

  lemma OneByteMore(x: Byte, r: nat, len: nat, p: nat, low: nat, high: nat)
    requires p <= 8 * len + 8 && r < Pow2(8 * len) && Spans(low, high, r, 8 * len - (p - Head(p)))
    ensures var weight := Pow2(8 * len);
      Spans(Join(Lo(x, Head(p)), weight, low), Join(Hi(x, Head(p)), weight, high), Join(x, weight, r), 8 * len + 8 - p)
  {
    hide Pow2, Lo, Hi;
    if p >= 8 {
      WholeByte(x, r, len, p);
      ByteInterval(x, x, 8);
    } else {
      PartOfByte(x, r, len, p);
    }
  }

  lemma WholeByte(x: Byte, r: nat, len: nat, p: nat)
    requires 8 <= p <= 8 * len + 8
    ensures var w := Pow2(8 * len + 8 - p); (x * Pow2(8 * len) + r) / w * w == x * Pow2(8 * len) + r / w * w
  {
    hide Pow2;
    var w, v := Pow2(8 * len + 8 - p), Pow2(p - 8);
    PowerSum(p - 8, 8 * len + 8 - p);
    assert Pow2(8 * len) == v * w;
    assert x * (v * w) == (x * v) * w;
    ShiftedQuotient(x * v, r, w);
  }

  lemma PartOfByte(x: Byte, r: nat, len: nat, p: nat)
    requires p < 8 && r < Pow2(8 * len)
    ensures var w, weight := Pow2(8 * len + 8 - p), Pow2(8 * len);
      && (x * weight + r) / w * w == Lo(x, p) * weight
      && Hi(x, p) * weight + (weight - 1) == Lo(x, p) * weight + (w - 1)
      && r / weight * weight == 0
  {
    hide *;
    LoHi(x, p);
    PowerSum(8 - p, 8 * len);
    var k, weight, w := Pow2(8 - p), Pow2(8 * len), Pow2(8 * len + 8 - p);
    assert (8 - p) + 8 * len == 8 * len + 8 - p;
    HighQuotient(x, r, k, weight);
    assert (x * weight + r) / w * w == Lo(x, p) * weight;
    LastPart(Lo(x, p), k, weight);
    NothingWhole(r, weight);
  }

  lemma LastPart(low: nat, k: nat, weight: nat)
    requires k > 0 && weight > 0
    ensures (low + k - 1) * weight + (weight - 1) == low * weight + (k * weight - 1)
  {
    assert (low + k - 1) * weight == low * weight + k * weight - weight;
  }

  lemma NothingWhole(r: nat, weight: nat)
    requires r < weight
    ensures r / weight * weight == 0
  {
    DivMod(r, weight);
    QuotientIs(r, r / weight, r % weight, 0, r, weight);
  }

  lemma LoHi(x: Byte, p: nat)
    requires p < 8
    ensures Lo(x, p) == x / Pow2(8 - p) * Pow2(8 - p) && Hi(x, p) == Lo(x, p) + Pow2(8 - p) - 1
  {
    RoundDownIs(8 - p, x);
    hide RoundDown, Pow2;
  }

  /** A network of prefix length `p` is all addresses with the same quotient by two to the number
      of host bits, without the first and the last if there are four or more. */
  lemma NetworkIsInterval(a: IP, p: nat, ip: IP)
    requires |a| == |ip| && p <= 8 * |a|
    ensures var w := Pow2(8 * |a| - p);
      && w > 0
      && (HasPrefix(a, p, ip) <==>
            && Number(ip) / w == Number(a) / w
            && (w >= 4 ==> Number(ip) % w != 0 && Number(ip) % w != w - 1))
  {
    hide CidrMask, And, OrNot, Number;
    var m, w := CidrMask(p, |a|), Pow2(8 * |a| - p);
    NetworkNumbers(a, p);
    NetworkNumbers(ip, p);
    NumberInjective(And(a, m), And(ip, m));
    NumberInjective(ip, And(a, m));
    NumberInjective(ip, OrNot(And(a, m), m));
    SmallPowers(8 * |a| - p);
    hide Pow2;
    DivMod(Number(ip), w);
    DivMod(Number(a), w);
    SameMultiple(Number(ip) / w, Number(a) / w, w);
  }

  lemma SameMultiple(q: nat, r: nat, w: nat)
    requires w > 0
    ensures q * w == r * w <==> q == r
  {
    if q < r {
      MulLeq(q + 1, r, w);
    } else if r < q {
      MulLeq(r + 1, q, w);
    }
  }

  lemma SmallPowers(h: nat)
    ensures Pow2(h) >= 4 <==> h >= 2
  {
    BytePowers();
    if h >= 2 {
      PowerSum(h - 2, 2);
      MulLeq(1, Pow2(h - 2), 4);
    } else {
      assert h == 0 || h == 1;
    }
  }

  /** An IPv4 address in IPv6 form, and back. */
  lemma MappedForm(a: Byte, b: Byte, c: Byte, d: Byte)
    ensures var mapped := [0, 0, 0, 0, 0, 0, 0, 0, 0, 0, 0xFF, 0xFF, a, b, c, d];
      To16([a, b, c, d]) == mapped && To4(mapped) == Some([a, b, c, d]) && To4([a, b, c, d]) == Some([a, b, c, d])
  {
    var mapped: IP := [0, 0, 0, 0, 0, 0, 0, 0, 0, 0, 0xFF, 0xFF, a, b, c, d];
    assert mapped == V4_PREFIX + [a, b, c, d];
    assert mapped[..12] == V4_PREFIX && mapped[12..] == [a, b, c, d];
  }

  function Ones(len: nat): (a: IP)
    ensures |a| == len
  {
    if len == 0 then [] else [0xFF] + Ones(len - 1)
  }

  lemma {:induction false} AllOnes(m: IP)
    ensures And(Ones(|m|), m) == m && Number(Ones(|m|)) == Weight(|m|) - 1
  {
    if m != [] {
      var rest := m[1..];
      assert m == [m[0]] + rest && Ones(|m|) == [0xFF] + Ones(|rest|);
      AllOnes(rest);
      assert AndByte(0xFF, m[0]) == m[0] by {
        BytePowers();
        AndOnes(8, m[0]);
        AndCommutes(8, m[0], 0xFF);
      }
      hide AndByte, Number, And;
      AndCons(0xFF, Ones(|rest|), m[0], rest);
      NumberCons(0xFF, Ones(|rest|));
    }
  }

  lemma {:induction false} AndCommutes(width: nat, x: nat, y: nat)
    requires x < Pow2(width) && y < Pow2(width)
    ensures BitAnd(width, x, y) == BitAnd(width, y, x)
  {
    if width > 0 {
      AndCommutes(width - 1, x / 2, y / 2);
    }
  }

  /** The mask of a prefix length, as a number. */
  lemma MaskNumber(p: nat, len: nat)
    requires p <= 8 * len
    ensures Number(CidrMask(p, len)) == Pow2(8 * len) - Pow2(8 * len - p)
  {
    hide *;
    var m, h := CidrMask(p, len), 8 * len - p;
    AllOnes(m);
    WeightIsPower(len);
    assert p + h == 8 * len;
    PowerSum(p, h);
    NetworkNumbers(Ones(len), p);
    SpanOfLast(Number(m), Number(OrNot(m, m)), Pow2(p), h);
  }

  lemma SpanOfLast(low: nat, high: nat, v: nat, h: nat)
    requires v > 0 && v * Pow2(h) > 0 && Spans(low, high, v * Pow2(h) - 1, h)
    ensures low == v * Pow2(h) - Pow2(h)
  {
    hide Pow2;
    LastMultiple(v, Pow2(h));
  }

  lemma LastMultiple(v: nat, w: nat)
    requires v > 0 && w > 0
    ensures v * w > 0 && (v * w - 1) / w * w == v * w - w
  {
    MulLeq(1, v, w);
    DivMod(v * w - 1, w);
    assert v * w - 1 == (v - 1) * w + (w - 1);
    QuotientIs(v * w - 1, (v * w - 1) / w, (v * w - 1) % w, v - 1, w - 1, w);
  }

  /** For an IPv4 address, a prefix length and the mask whose number has that many leading ones
      mean the same network, and no other mask means it; an IPv6 address takes no mask. */
  lemma MaskOrNumber(addr: IP, mask: IP, n: nat)
    requires |addr| == V6_LEN && |mask| == V4_LEN && n <= 32
    ensures PrefixLength(addr, Some(To16(mask)), None) == PrefixLength(addr, None, Some(n))
            <==> if To4(addr).Some? then Number(mask) == 0x1_0000_0000 - Pow2(32 - n) else false
    ensures PrefixLength(addr, None, Some(n)) == Some(n)
  {
    MaskBack(mask);
    hide To16, To4, MaskSize, CidrMask, Pow2, Number;
    SizeOfMask(mask, n);
    NumberInjective(mask, CidrMask(n, 4));
    MaskNumber(n, 4);
    Pow32();
  }

  lemma MaskBack(mask: IP)
    requires |mask| == V4_LEN
    ensures To4(To16(mask)) == Some(mask)
  {
    assert To16(mask)[..12] == V4_PREFIX && To16(mask)[12..] == mask;
  }

  lemma Pow32()
    ensures Pow2(32) == 0x1_0000_0000
  {
    BytePowers();
    PowerSum(8, 8);
    PowerSum(16, 16);
  }

  /** Which numbers are no prefix lengths. */
  lemma BadPrefixLength(addr: IP, n: int)
    requires |addr| == V6_LEN
    ensures PrefixLength(addr, None, Some(n)).None? <==> n < 0 || n > 128 || (addr[..12] == V4_PREFIX && n > 32)
  {
  }

  /** Two ends make a range exactly if both are IPv4 or both are not, and the first is no greater;
      it holds the addresses between them, ends included. */
  lemma TwoEnds(left: IP, right: IP, ip: IP)
    requires |left| == |right| == V6_LEN
    ensures ParseTwo(Some(left), Some(right)).Some?
            <==> (left[..12] == V4_PREFIX <==> right[..12] == V4_PREFIX) && Number(left) <= Number(right)
    ensures ParseTwo(Some(left), Some(right)).Some? ==>
              (ParseTwo(Some(left), Some(right)).value.Contains(ip)
               <==> |ip| in {V4_LEN, V6_LEN} && Number(left) <= Number(To16(ip)) <= Number(right))
  {
    hide Number, Leq;
    LeqIsNumeric(left, right);
    var full := To16(ip);
    if full == [] {
      NothingBelow(left);
    } else {
      LeqIsNumeric(left, full);
      LeqIsNumeric(full, right);
    }
  }
}
