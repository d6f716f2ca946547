/**
 * IPv4 addresses as four big-endian bytes: the in-place increment `inc`
 * of speedtest/utils.go, address blocks (`net.IPNet` restricted to IPv4),
 * the byte-wise offset addition of quick mode, and the dotted-decimal text
 * that `IP.String` prints and `net.ParseCIDR` reads.
 */
module IPv4 {
  import opened Arith
  import opened Optional
  import Decimal
  import Text

  type Byte = b: int | 0 <= b < 256

  /** The number of bytes of an IPv4 address. */
  const AddressSize: nat := 4

  /** The number of bits of an IPv4 address, the largest prefix length. */
  const AddressBits: nat := 8 * AddressSize

  /** The unsigned number a byte string denotes, most significant byte first. */
  function Value(s: seq<Byte>): nat {
    if s == [] then 0 else Value(s[..|s| - 1]) * 256 + s[|s| - 1]
  }

  lemma {:induction false} ValueBound(s: seq<Byte>)
    ensures Value(s) < Pow2(8 * |s|)
  {
    if s != [] {
      var init := s[..|s| - 1];
      ValueBound(init);
      Pow2Add(8 * |init|, 8);
      Pow2Byte();
      assert Value(s) <= (Pow2(8 * |init|) - 1) * 256 + 255;
    }
  }

  lemma {:induction false} ValueZero(s: seq<Byte>)
    requires Value(s) == 0
    ensures forall k :: 0 <= k < |s| ==> s[k] == 0
  {
    if s != [] {
      ValueZero(s[..|s| - 1]);
      assert forall k :: 0 <= k < |s| - 1 ==> s[k] == s[..|s| - 1][k];
    }
  }

  /** The `n` low-order bytes of `v`, most significant first. */
  function FromValue(v: nat, n: nat): (s: seq<Byte>)
    ensures |s| == n
  {
    if n == 0 then [] else FromValue(v / 256, n - 1) + [v % 256]
  }

  lemma {:induction false} ValueFromValue(v: nat, n: nat)
    ensures Value(FromValue(v, n)) == v % Pow2(8 * n)
  {
    if n > 0 {
      var s := FromValue(v, n);
      assert s[..n - 1] == FromValue(v / 256, n - 1);
      ValueFromValue(v / 256, n - 1);
      Pow2Add(8, 8 * (n - 1));
      Pow2Byte();
      DivModSplit(v, 256, Pow2(8 * (n - 1)));
    }
  }

  lemma {:induction false} FromValueValue(s: seq<Byte>)
    ensures FromValue(Value(s), |s|) == s
  {
    if s != [] {
      var init := s[..|s| - 1];
      DivModUnique(Value(s), 256, Value(init), s[|s| - 1]);
      FromValueValue(init);
    }
  }

  /** Byte `i` of `FromValue(v, n)` is `byte(v >> (8 * (n - 1 - i)))`. */
  lemma {:induction false} FromValueAt(v: nat, n: nat, i: nat)
    requires i < n
    ensures FromValue(v, n)[i] == (v / Pow2(8 * (n - 1 - i))) % 256
  {
    if i < n - 1 {
      FromValueAt(v / 256, n - 1, i);
      Pow2Add(8, 8 * (n - 2 - i));
      Pow2Byte();
      DivModSplit(v, 256, Pow2(8 * (n - 2 - i)));
    }
  }

  // ---------------------------------------------------------------------
  // inc (speedtest/utils.go:88-95)
  // ---------------------------------------------------------------------

  function Zeros(n: nat): (s: seq<Byte>)
    ensures |s| == n && forall k :: 0 <= k < n ==> s[k] == 0
  {
    seq(n, _ => 0)
  }

  /** The byte string after a big-endian increment with carry. */
  function IncSeq(s: seq<Byte>): (r: seq<Byte>)
    ensures |r| == |s|
  {
    if s == [] then []
    else if s[|s| - 1] == 255 then IncSeq(s[..|s| - 1]) + [0]
    else s[..|s| - 1] + [s[|s| - 1] + 1]
  }

  /** The increment is +1 on the number the bytes denote, wrapping modulo 256^|s|. */
  lemma {:induction false} IncSeqValue(s: seq<Byte>)
    ensures Value(IncSeq(s)) == (Value(s) + 1) % Pow2(8 * |s|)
  {
    if s != [] {
      var init, last := s[..|s| - 1], s[|s| - 1];
      var p := Pow2(8 * |init|);
      Pow2Step(|init|);
      ValueBound(init);
      ValueLast(s);
      if last == 255 {
        IncSeqValue(init);
        ValueAppend(IncSeq(init), 0);
        WrapCarry(Value(init), p);
      } else {
        ValueAppend(init, last + 1);
        NoWrap(Value(init), last, p);
      }
    }
  }

  lemma Pow2Step(n: nat)
    ensures Pow2(8 * (n + 1)) == 256 * Pow2(8 * n)
  {
    Pow2Add(8, 8 * n);
    Pow2Byte();
    assert 8 + 8 * n == 8 * (n + 1);
  }

  /** A carry out of the last byte: the leading bytes take the +1, modulo their own range. */
  lemma WrapCarry(vi: nat, p: nat)
    requires p > 0
    ensures (vi + 1) % p * 256 + 0 == (vi * 256 + 255 + 1) % (256 * p)
  {
    var v := (vi + 1) * 256;
    assert vi * 256 + 255 + 1 == v;
    DivModSplit(v, 256, p);
    DivModUnique(v, 256, vi + 1, 0);
  }

  /** No carry out of the last byte: the +1 stays within range. */
  lemma NoWrap(vi: nat, last: nat, p: nat)
    requires last < 255 && vi < p
    ensures vi * 256 + (last + 1) == (vi * 256 + last + 1) % (256 * p)
  {
    var v := vi * 256 + last + 1;
    MulMonotone(256, vi + 1, p);
    DivModUnique(v, 256 * p, 0, v);
  }

  /**
   * The increment rewrites only the trailing run of 0xFF bytes (to 0) and
   * the byte just before it (+1); with no such byte (`j == -1`, every byte
   * 0xFF) the result is all zeros.
   */
  lemma {:induction false} IncSeqShape(s: seq<Byte>, j: int)
    requires -1 <= j < |s|
    requires j >= 0 ==> s[j] != 255
    requires forall k :: j < k < |s| ==> s[k] == 255
    ensures j >= 0 ==> IncSeq(s) == s[..j] + [s[j] + 1] + Zeros(|s| - 1 - j)
    ensures j == -1 ==> IncSeq(s) == Zeros(|s|)
  {
    if s != [] && j < |s| - 1 {
      var init := s[..|s| - 1];
      IncSeqShape(init, j);
      if j >= 0 {
        assert init[..j] == s[..j];
        assert Zeros(|s| - 2 - j) + [0] == Zeros(|s| - 1 - j);
      } else {
        assert Zeros(|s| - 1) + [0] == Zeros(|s|);
      }
    }
  }

  /** `inc(ip)`: increments the address in place, from the last byte while it wraps. */
  method Inc(ip: array<Byte>)
    modifies ip
    ensures ip[..] == IncSeq(old(ip[..]))
  {
    var j := ip.Length - 1;
    while j >= 0
      invariant -1 <= j < ip.Length
      invariant forall k :: 0 <= k <= j ==> ip[k] == old(ip[k])
      invariant forall k :: j < k < ip.Length ==> ip[k] == 0 && old(ip[k]) == 255
    {
      ip[j] := if ip[j] == 255 then 0 else ip[j] + 1;
      if ip[j] > 0 {
        IncSeqShape(old(ip[..]), j);
        assert ip[..] == old(ip[..])[..j] + [old(ip[j]) + 1] + Zeros(ip.Length - 1 - j);
        return;
      }
      j := j - 1;
    }
    IncSeqShape(old(ip[..]), -1);
    assert ip[..] == Zeros(ip.Length);
  }

  // ---------------------------------------------------------------------
  // Address blocks (net.IPNet for IPv4)
  // ---------------------------------------------------------------------

  /** A block: a network address and a prefix length. */
  datatype Block = Block(network: seq<Byte>, prefix: nat)

  /** `1 << (32 - maskSize)`, the number of addresses in a block. */
  function HostCount(prefix: nat): nat
    requires prefix <= AddressBits
  {
    Pow2(AddressBits - prefix)
  }

  /** A four-byte network address whose host bits are zero. */
  predicate ValidBlock(b: Block) {
    |b.network| == AddressSize && b.prefix <= AddressBits && Value(b.network) % HostCount(b.prefix) == 0
  }

  /** `ipNet.Contains(ip)`: the address agrees with the network on the prefix bits. */
  predicate Contains(b: Block, ip: seq<Byte>)
    requires b.prefix <= AddressBits
  {
    |ip| == AddressSize && Value(ip) / HostCount(b.prefix) == Value(b.network) / HostCount(b.prefix)
  }

  /** A block holds exactly the consecutive addresses network .. network + HostCount - 1. */
  lemma ContainsRange(b: Block, ip: seq<Byte>)
    requires ValidBlock(b) && |ip| == AddressSize
    ensures Contains(b, ip) <==>
      Value(b.network) <= Value(ip) < Value(b.network) + HostCount(b.prefix)
  {
    AlignedRange(Value(ip), Value(b.network), HostCount(b.prefix));
  }

  lemma AlignedRange(x: nat, n: nat, h: nat)
    requires h > 0 && n % h == 0
    ensures x / h == n / h <==> n <= x < n + h
  {
    var q := n / h;
    DivMul(n, h);
    DivRange(x, h, q);
  }

  /** A block never runs past the last IPv4 address. */
  lemma NetworkBound(b: Block)
    requires ValidBlock(b)
    ensures Value(b.network) + HostCount(b.prefix) <= Pow2(AddressBits)
  {
    ValueBound(b.network);
    HostSplit(b.prefix);
    BlockEnd(Value(b.network), HostCount(b.prefix), Pow2(b.prefix));
  }

  /** The address space is HostCount(prefix) addresses times 2^prefix blocks. */
  lemma HostSplit(prefix: nat)
    requires prefix <= AddressBits
    ensures Pow2(AddressBits) == HostCount(prefix) * Pow2(prefix)
  {
    var k := AddressBits - prefix;
    Pow2Add(k, prefix);
    assert k + prefix == AddressBits;
  }

  /** An aligned start below h * p leaves a whole block of h below h * p. */
  lemma BlockEnd(n: nat, h: nat, p: nat)
    requires h > 0 && n % h == 0 && n < h * p
    ensures n + h <= h * p
  {
    var q := n / h;
    DivMul(n, h);
    MulCancelLess(h, q, p);
    MulMonotone(h, q + 1, p);
    assert h * (q + 1) == h * q + h;
  }

  /** `ip.Mask(ipNet.Mask)`: the address with its host bits cleared. */
  function NetworkOf(a: seq<Byte>, prefix: nat): seq<Byte>
    requires |a| == AddressSize && prefix <= AddressBits
  {
    FromValue(MaskValue(Value(a), prefix), AddressSize)
  }

  /** The number `x` with its low AddressBits - prefix bits cleared. */
  function MaskValue(x: nat, prefix: nat): nat
    requires prefix <= AddressBits
  {
    ModAtMost(x, HostCount(prefix));
    x - x % HostCount(prefix)
  }

  /** The network of an address starts a valid block that contains the address. */
  lemma NetworkOfContains(a: seq<Byte>, prefix: nat)
    requires |a| == AddressSize && prefix <= AddressBits
    ensures ValidBlock(Block(NetworkOf(a, prefix), prefix))
    ensures Contains(Block(NetworkOf(a, prefix), prefix), a)
  {
    var h, x := HostCount(prefix), Value(a);
    var v := RoundDown(x, h);
    var m := MaskValue(x, prefix);
    assert m == v;
    ValueBound(a);
    ValueFromValueSmall(m, AddressSize);
    SameQuotient(Value(NetworkOf(a, prefix)), v, x, h);
  }

  lemma SameQuotient(w: int, v: int, x: int, h: int)
    requires h > 0 && w == v && v % h == 0 && v / h == x / h
    ensures w % h == 0 && x / h == w / h
  {
  }

  lemma ValueFromValueSmall(v: nat, n: nat)
    requires v < Pow2(8 * n)
    ensures Value(FromValue(v, n)) == v
  {
    ValueFromValue(v, n);
    DivModUnique(v, Pow2(8 * n), 0, v);
  }

  /** Clearing the remainder keeps the quotient and leaves a multiple. */
  lemma RoundDown(x: nat, h: nat) returns (v: nat)
    requires h > 0
    ensures v == x - x % h && v <= x
    ensures v % h == 0 && v / h == x / h
  {
    var q := x / h;
    DivMul(x, h);
    v := x - x % h;
    DivModUnique(v, h, q, 0);
  }

  // ---------------------------------------------------------------------
  // Quick-mode offset addition (speedtest/utils.go:59-64)
  // ---------------------------------------------------------------------

  /** `byte(offset >> (8 * (3 - i)))`: byte `i` of the offset, truncated. */
  function OffsetByte(offset: nat, i: nat): Byte
    requires i < 4
  {
    (offset / Pow2(8 * (3 - i))) % 256
  }

  /** Byte-wise addition, each byte wrapping on its own (`ip[i] += …` on a byte). */
  function AddBytes(a: seq<Byte>, b: seq<Byte>): (r: seq<Byte>)
    requires |a| == |b|
    ensures |r| == |a|
  {
    if a == [] then []
    else AddBytes(a[..|a| - 1], b[..|b| - 1]) + [(a[|a| - 1] as int + b[|b| - 1] as int) % 256]
  }

  lemma {:induction false} AddBytesAt(a: seq<Byte>, b: seq<Byte>, k: nat)
    requires |a| == |b| && k < |a|
    ensures AddBytes(a, b)[k] == (a[k] as int + b[k] as int) % 256
  {
    if k < |a| - 1 {
      AddBytesAt(a[..|a| - 1], b[..|b| - 1], k);
    }
  }

  /**
   * Adding byte-wise loses no carry when the low `h` bits of `a` are zero
   * and `b` is below 2^h: the bytes add as numbers.
   */
  lemma {:induction false} NoCarry(a: seq<Byte>, b: seq<Byte>, h: nat)
    requires |a| == |b| && h <= 8 * |a|
    requires Value(a) % Pow2(h) == 0 && Value(b) < Pow2(h)
    ensures Value(AddBytes(a, b)) == Value(a) + Value(b)
  {
    if a != [] {
      if h >= 8 {
        NoCarryHighBits(a, b, h);
        NoCarry(a[..|a| - 1], b[..|b| - 1], h - 8);
        AddLastByte(a, b);
      } else {
        NoCarryLowBits(a, b, h);
        AddLastByte(a, b);
      }
    }
  }

  /** When the last bytes add without wrapping and the leading bytes add as numbers, so do the whole strings. */
  lemma AddLastByte(a: seq<Byte>, b: seq<Byte>)
    requires |a| == |b| > 0
    requires a[|a| - 1] as int + b[|b| - 1] as int < 256
    requires Value(AddBytes(a[..|a| - 1], b[..|b| - 1])) == Value(a[..|a| - 1]) + Value(b[..|b| - 1])
    ensures Value(AddBytes(a, b)) == Value(a) + Value(b)
  {
    var a', b' := a[..|a| - 1], b[..|b| - 1];
    var al, bl := a[|a| - 1], b[|b| - 1];
    var s: Byte := al + bl;
    AddBytesLast(a, b);
    ValueAppend(AddBytes(a', b'), s);
    ValueLast(a);
    ValueLast(b);
  }

  lemma AddBytesLast(a: seq<Byte>, b: seq<Byte>)
    requires |a| == |b| > 0
    requires a[|a| - 1] as int + b[|b| - 1] as int < 256
    ensures AddBytes(a, b) == AddBytes(a[..|a| - 1], b[..|b| - 1]) + [a[|a| - 1] + b[|b| - 1]]
  {
    var t := a[|a| - 1] as int + b[|b| - 1] as int;
    DivModUnique(t, 256, 0, t);
  }

  lemma ValueLast(s: seq<Byte>)
    requires s != []
    ensures Value(s) == Value(s[..|s| - 1]) * 256 + s[|s| - 1]
  {
  }

  lemma ValueAppend(s: seq<Byte>, x: Byte)
    ensures Value(s + [x]) == Value(s) * 256 + x
  {
    assert (s + [x])[..|s|] == s;
  }

  /** Adding all-zero bytes changes nothing. */
  lemma {:induction false} AddBytesZero(a: seq<Byte>, z: seq<Byte>)
    requires |a| == |z|
    requires forall k :: 0 <= k < |z| ==> z[k] == 0
    ensures AddBytes(a, z) == a
  {
    if a != [] {
      var a', z' := a[..|a| - 1], z[..|z| - 1];
      assert forall k :: 0 <= k < |z'| ==> z'[k] == z[k];
      AddBytesZero(a', z');
      AddBytesLast(a, z);
      assert a' + [a[|a| - 1]] == a;
    }
  }

  /** With at least 8 host bits, the last byte of `a` is zero and the rest carries on with h - 8. */
  lemma NoCarryHighBits(a: seq<Byte>, b: seq<Byte>, h: nat)
    requires |a| == |b| > 0 && 8 <= h <= 8 * |a|
    requires Value(a) % Pow2(h) == 0 && Value(b) < Pow2(h)
    ensures a[|a| - 1] == 0
    ensures Value(a[..|a| - 1]) % Pow2(h - 8) == 0
    ensures Value(b[..|b| - 1]) < Pow2(h - 8)
  {
    var n := |a|;
    var va, vb := Value(a[..n - 1]), Value(b[..n - 1]);
    var p := Pow2(h - 8);
    Pow2Add(8, h - 8);
    Pow2Byte();
    assert Pow2(h) == 256 * p;
    DivModSplit(Value(a), 256, p);
    DivModUnique(Value(a), 256, va, a[n - 1]);
    MulCancelLess(256, vb, p);
  }

  /** With fewer than 8 host bits, `b` lives in its last byte and that byte adds without wrapping. */
  lemma NoCarryLowBits(a: seq<Byte>, b: seq<Byte>, h: nat)
    requires |a| == |b| > 0 && h < 8
    requires Value(a) % Pow2(h) == 0 && Value(b) < Pow2(h)
    ensures Value(AddBytes(a[..|a| - 1], b[..|b| - 1])) == Value(a[..|a| - 1])
    ensures a[|a| - 1] as int + b[|b| - 1] as int < 256
    ensures Value(b) == b[|b| - 1]
  {
    var n := |a|;
    var a', b' := a[..n - 1], b[..n - 1];
    var al, bl := a[n - 1], b[n - 1];
    var p, c := Pow2(h), Pow2(8 - h);
    Pow2Add(h, 8 - h);
    Pow2Byte();
    assert p * c == 256;
    Pow2Monotone(h, 8);
    MulCancelLess(256, Value(b'), 1);
    assert Value(b') == 0;
    ValueZero(b');
    AddBytesZero(a', b');
    LowByteAligned(Value(a'), al, p, c);
    assert bl < p;
  }

  /** A byte that is a multiple of p (with p * c == 256) leaves room for anything below p. */
  lemma LowByteAligned(hi: nat, al: nat, p: nat, c: nat)
    requires p > 0 && c > 0 && p * c == 256 && al < 256
    requires (hi * 256 + al) % p == 0
    ensures al + p <= 256
  {
    var k := al / p;
    assert al == p * k + al % p;
    DivModUnique(hi * 256 + al, p, hi * c + k, al % p) by {
      assert hi * 256 == p * (hi * c);
    }
    assert al == p * k;
    MulCancelLess(p, k, c);
    MulMonotone(p, k + 1, c);
  }

  // ---------------------------------------------------------------------
  // Dotted-decimal text (IP.String, and the IPv4 half of net.ParseCIDR)
  // ---------------------------------------------------------------------

  function Octets(a: seq<Byte>): (fields: seq<string>)
    requires |a| == 4
    ensures |fields| == 4 && forall k :: 0 <= k < 4 ==> Decimal.IsCanonical(fields[k])
  {
    [Decimal.FromNat(a[0]), Decimal.FromNat(a[1]), Decimal.FromNat(a[2]), Decimal.FromNat(a[3])]
  }

  /** `IP.String()` of a four-byte address: "a.b.c.d". */
  function FormatIPv4(a: seq<Byte>): string
    requires |a| == 4
  {
    Text.Join(Octets(a), '.')
  }

  /** One field of a dotted quad: a decimal without leading zero, at most 255. */
  function ParseOctet(f: string): (r: Option<Byte>)
    ensures r.Some? <==> Decimal.IsCanonical(f) && Decimal.Value(f) <= 255
  {
    if Decimal.IsCanonical(f) && Decimal.Value(f) <= 255 then Some(Decimal.Value(f)) else None
  }

  /** An IPv4 address in dotted-decimal form: exactly four octet fields. */
  function ParseIPv4(s: string): (r: Option<seq<Byte>>)
    ensures r.Some? ==> |r.value| == 4
  {
    var fs := Text.Split(s, '.');
    if |fs| == 4 && ParseOctet(fs[0]).Some? && ParseOctet(fs[1]).Some?
       && ParseOctet(fs[2]).Some? && ParseOctet(fs[3]).Some?
    then Some([ParseOctet(fs[0]).value, ParseOctet(fs[1]).value,
               ParseOctet(fs[2]).value, ParseOctet(fs[3]).value])
    else None
  }

  /** Reading back a printed address gives the address. */
  lemma ParseFormat(a: seq<Byte>)
    requires |a| == 4
    ensures ParseIPv4(FormatIPv4(a)) == Some(a)
  {
    var fs := Octets(a);
    OctetsParse(a);
    Text.SplitJoin(fs, '.');
    ParseFields(FormatIPv4(a), a);
  }

  lemma OctetsParse(a: seq<Byte>)
    requires |a| == 4
    ensures forall k :: 0 <= k < 4 ==> '.' !in Octets(a)[k] && ParseOctet(Octets(a)[k]) == Some(a[k])
  {
    var fs := Octets(a);
    forall k | 0 <= k < 4
      ensures '.' !in fs[k] && ParseOctet(fs[k]) == Some(a[k])
    {
      Decimal.ValueFromNat(a[k]);
      assert !Decimal.IsDigit('.');
    }
  }

  lemma ParseFields(s: string, a: seq<Byte>)
    requires |a| == 4 && |Text.Split(s, '.')| == 4
    requires forall k :: 0 <= k < 4 ==> ParseOctet(Text.Split(s, '.')[k]) == Some(a[k])
    ensures ParseIPv4(s) == Some(a)
  {
    assert [a[0], a[1], a[2], a[3]] == a;
  }

  /** The parser accepts only the printed form: a parsed text prints back unchanged. */
  lemma FormatParse(s: string)
    requires ParseIPv4(s).Some?
    ensures FormatIPv4(ParseIPv4(s).value) == s
  {
    var fs := Text.Split(s, '.');
    var a := ParseIPv4(s).value;
    forall k | 0 <= k < 4
      ensures Decimal.FromNat(a[k]) == fs[k]
    {
      Decimal.FromNatValue(fs[k]);
    }
    assert Octets(a) == fs;
    Text.JoinSplit(s, '.');
  }

  /** Distinct addresses print differently. */
  lemma FormatInjective(a: seq<Byte>, b: seq<Byte>)
    requires |a| == 4 && |b| == 4 && FormatIPv4(a) == FormatIPv4(b)
    ensures a == b
  {
    ParseFormat(a);
    ParseFormat(b);
  }

  /** The prefix length after '/': decimal digits (leading zeros allowed), at most 32. */
  function ParsePrefixLength(m: string): (r: Option<nat>)
    ensures r.Some? <==> |m| >= 1 && Decimal.AllDigits(m) && Decimal.Value(m) <= AddressBits
    ensures r.Some? ==> r.value <= AddressBits && r.value == Decimal.Value(m)
  {
    if |m| >= 1 && Decimal.AllDigits(m) && Decimal.Value(m) <= AddressBits then Some(Decimal.Value(m)) else None
  }

  /** Every prefix length from 0 to 32, printed, is accepted and read back as itself. */
  lemma PrefixLengthRoundTrip(p: nat)
    requires p <= AddressBits
    ensures ParsePrefixLength(Decimal.FromNat(p)) == Some(p)
  {
    Decimal.ValueFromNat(p);
  }

  /** A leading zero changes nothing: "024" is read as 24, and rejected exactly when "24" is. */
  lemma PrefixLengthLeadingZero(m: string)
    ensures ParsePrefixLength("0" + m) == if m == [] then Some(0) else ParsePrefixLength(m)
  {
    if Decimal.AllDigits(m) {
      Decimal.ValueLeadingZero(m);
    } else {
      var i :| 0 <= i < |m| && !Decimal.IsDigit(m[i]);
      assert ("0" + m)[i + 1] == m[i];
    }
  }

  /** The address part of a CIDR line: the text before its first '/'. */
  function AddressPart(line: string): string
    requires '/' in line
  {
    line[..Text.IndexOf(line, '/')]
  }

  /**
   * Whether the address text would be read as IPv6: a ':' comes before any
   * '.' or '%' (the first of the three decides the address family).
   */
  function LooksLikeIPv6(addr: string): bool {
    if addr == [] then false
    else if addr[0] == ':' then true
    else if addr[0] == '.' || addr[0] == '%' then false
    else LooksLikeIPv6(addr[1..])
  }

  /**
   * `net.ParseCIDR` on an IPv4 line: the address before the first '/' must
   * be a dotted quad and the rest a prefix length; the block's network is
   * the address with its host bits cleared.
   */
  function ParseCidr(line: string): (r: Option<Block>)
    requires '/' in line
    ensures r.Some? <==>
      ParseIPv4(AddressPart(line)).Some? && ParsePrefixLength(line[Text.IndexOf(line, '/') + 1..]).Some?
    ensures r.Some? ==> ValidBlock(r.value) && Contains(r.value, ParseIPv4(AddressPart(line)).value)
    ensures r.Some? ==> r.value.prefix == ParsePrefixLength(line[Text.IndexOf(line, '/') + 1..]).value
  {
    var i := Text.IndexOf(line, '/');
    match (ParseIPv4(line[..i]), ParsePrefixLength(line[i + 1..]))
    case (Some(a), Some(p)) =>
      NetworkOfContains(a, p);
      Some(Block(NetworkOf(a, p), p))
    case _ => None
  }
}
