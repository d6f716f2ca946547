/**
 * The address list that `ReadIPs` (speedtest/utils.go) builds from the lines
 * of the address file: plain lines verbatim, unparsable CIDR lines skipped,
 * and each IPv4 block either walked from its network address with `inc` or,
 * in quick mode, sampled at `quickmode + 1` distinct random offsets.
 */
module AddressList {
  import opened Arith
  import opened IPv4
  import opened Optional
  import Text

  // ---------------------------------------------------------------------
  // The addresses of a block
  // ---------------------------------------------------------------------

  /** The printed address `k` places after the network address of `b`. */
  function BlockAddress(b: Block, k: nat): string
    requires ValidBlock(b) && k < HostCount(b.prefix)
  {
    FormatIPv4(FromValue(Value(b.network) + k, AddressSize))
  }

  /** Every address of the block, from the network address upward. */
  function BlockAddresses(b: Block): seq<string>
    requires ValidBlock(b)
  {
    seq(HostCount(b.prefix), k requires 0 <= k < HostCount(b.prefix) => BlockAddress(b, k))
  }

  /** Address `k` of a block reads back as the address network + k, and that address lies in the block. */
  lemma BlockAddressParse(b: Block, k: nat)
    requires ValidBlock(b) && k < HostCount(b.prefix)
    ensures ParseIPv4(BlockAddress(b, k)).Some?
    ensures Contains(b, ParseIPv4(BlockAddress(b, k)).value)
    ensures Value(ParseIPv4(BlockAddress(b, k)).value) == Value(b.network) + k
  {
    var a := AddressAt(b, k);
    ParseFormat(a);
  }

  /** Address `k` of a block, as bytes. */
  lemma AddressAt(b: Block, k: nat) returns (a: seq<Byte>)
    requires ValidBlock(b) && k < HostCount(b.prefix)
    ensures |a| == AddressSize && BlockAddress(b, k) == FormatIPv4(a)
    ensures Value(a) == Value(b.network) + k && Contains(b, a)
  {
    a := FromValue(Value(b.network) + k, AddressSize);
    OffsetAddress(b, k);
    BlockAddressIs(b, k);
  }

  /** The bytes of network + k lie inside the block and have that value. */
  lemma OffsetAddress(b: Block, k: nat)
    requires ValidBlock(b) && k < HostCount(b.prefix)
    ensures Value(FromValue(Value(b.network) + k, AddressSize)) == Value(b.network) + k
    ensures Contains(b, FromValue(Value(b.network) + k, AddressSize))
  {
    OffsetValue(b, k);
    InBlock(b, FromValue(Value(b.network) + k, AddressSize));
  }

  lemma OffsetValue(b: Block, k: nat)
    requires ValidBlock(b) && k < HostCount(b.prefix)
    ensures Value(FromValue(Value(b.network) + k, AddressSize)) == Value(b.network) + k
  {
    OffsetFits(b, k);
    ValueFromValueSmall(Value(b.network) + k, AddressSize);
  }

  lemma OffsetFits(b: Block, k: nat)
    requires ValidBlock(b) && k < HostCount(b.prefix)
    ensures Value(b.network) + k < Pow2(AddressBits)
  {
    NetworkBound(b);
  }

  lemma InBlock(b: Block, a: seq<Byte>)
    requires ValidBlock(b) && |a| == AddressSize
    requires Value(b.network) <= Value(a) < Value(b.network) + HostCount(b.prefix)
    ensures Contains(b, a)
  {
    AlignedRange(Value(a), Value(b.network), HostCount(b.prefix));
  }

  /** Distinct offsets give distinct texts. */
  lemma BlockAddressInjective(b: Block, j: nat, k: nat)
    requires ValidBlock(b) && j < HostCount(b.prefix) && k < HostCount(b.prefix)
    requires BlockAddress(b, j) == BlockAddress(b, k)
    ensures j == k
  {
    BlockAddressParse(b, j);
    BlockAddressParse(b, k);
  }

  /** Bytes with value `v` are the bytes `FromValue` produces for `v`. */
  lemma SameAddress(a: seq<Byte>, v: nat)
    requires |a| == AddressSize && Value(a) == v
    ensures FromValue(v, AddressSize) == a
  {
    FromValueValue(a);
  }

  /** Every entry of a block's expansion reads back as address network + i of the block. */
  lemma BlockAddressesParse(b: Block)
    requires ValidBlock(b)
    ensures |BlockAddresses(b)| == HostCount(b.prefix)
    ensures forall i :: 0 <= i < |BlockAddresses(b)| ==>
      ParseIPv4(BlockAddresses(b)[i]).Some?
      && Contains(b, ParseIPv4(BlockAddresses(b)[i]).value)
      && Value(ParseIPv4(BlockAddresses(b)[i]).value) == Value(b.network) + i
  {
    forall i | 0 <= i < HostCount(b.prefix)
      ensures ParseIPv4(BlockAddress(b, i)).Some?
      ensures Contains(b, ParseIPv4(BlockAddress(b, i)).value)
      ensures Value(ParseIPv4(BlockAddress(b, i)).value) == Value(b.network) + i
    {
      BlockAddressParse(b, i);
    }
  }

  /** The expansion of a block lists no address twice. */
  lemma BlockAddressesDistinct(b: Block)
    requires ValidBlock(b)
    ensures forall i, j :: 0 <= i < j < |BlockAddresses(b)| ==> BlockAddresses(b)[i] != BlockAddresses(b)[j]
  {
    forall i, j | 0 <= i < j < HostCount(b.prefix)
      ensures BlockAddress(b, i) != BlockAddress(b, j)
    {
      if BlockAddress(b, i) == BlockAddress(b, j) {
        BlockAddressInjective(b, i, j);
      }
    }
  }

  /** The expansion of a block lists every address the block contains. */
  lemma BlockAddressesComplete(b: Block)
    requires ValidBlock(b)
    ensures forall a :: |a| == AddressSize && Contains(b, a) ==> FormatIPv4(a) in BlockAddresses(b)
  {
    forall a | |a| == AddressSize && Contains(b, a)
      ensures FormatIPv4(a) in BlockAddresses(b)
    {
      var k := AddressIndex(b, a);
      assert BlockAddresses(b)[k] == FormatIPv4(a);
    }
  }

  /** The position of a contained address in its block's expansion. */
  lemma AddressIndex(b: Block, a: seq<Byte>) returns (k: nat)
    requires ValidBlock(b) && |a| == AddressSize && Contains(b, a)
    ensures k < HostCount(b.prefix) && BlockAddress(b, k) == FormatIPv4(a)
  {
    ContainsRange(b, a);
    k := Value(a) - Value(b.network);
    SameAddress(a, Value(b.network) + k);
  }

  // ---------------------------------------------------------------------
  // Walking a block with `inc` (speedtest/utils.go:49-51 and 76-78)
  // ---------------------------------------------------------------------

  /**
   * `for ip := ip.Mask(ipNet.Mask); ipNet.Contains(ip); inc(ip)`: starts at
   * the network address and appends each address until the increment leaves
   * the block. A /0 block is excluded: there the increment wraps from
   * 255.255.255.255 back to 0.0.0.0, which is inside, and the walk never ends.
   */
  method EnumerateBlock(b: Block) returns (ips: seq<string>)
    requires ValidBlock(b) && b.prefix >= 1
    ensures ips == BlockAddresses(b)
  {
    var ip := new Byte[4](i requires 0 <= i < 4 => b.network[i]);
    assert ip[..] == b.network;
    ips := [];
    WalkStart(b);
    while Contains(b, ip[..])
      invariant Walked(b, ips, ip[..])
      decreases HostCount(b.prefix) - |ips|
    {
      ghost var before := ip[..];
      WalkAdvance(b, ips, before);
      ips := ips + [FormatIPv4(ip[..])];
      Inc(ip);
    }
    WalkDone(b, ips, ip[..]);
  }

  /**
   * The walk so far: `ips` holds the first |ips| addresses of the block, and
   * `ip` is the next one, or lies outside the block once all are listed.
   */
  ghost predicate Walked(b: Block, ips: seq<string>, ip: seq<Byte>)
    requires ValidBlock(b)
  {
    |ip| == AddressSize && |ips| <= HostCount(b.prefix)
    && (|ips| < HostCount(b.prefix) ==> Value(ip) == Value(b.network) + |ips|)
    && (|ips| == HostCount(b.prefix) ==> !Contains(b, ip))
    && ips == BlockAddresses(b)[..|ips|]
  }

  lemma WalkStart(b: Block)
    requires ValidBlock(b)
    ensures Walked(b, [], b.network)
  {
    assert Value(b.network) + 0 == Value(b.network);
  }

  /** One turn of the walk: the current address is listed and `inc` moves to the next. */
  lemma WalkAdvance(b: Block, ips: seq<string>, ip: seq<Byte>)
    requires ValidBlock(b) && b.prefix >= 1 && Walked(b, ips, ip) && Contains(b, ip)
    ensures |ips| < HostCount(b.prefix)
    ensures Walked(b, ips + [FormatIPv4(ip)], IncSeq(ip))
  {
    SameAddress(ip, Value(b.network) + |ips|);
    EntryIs(b, |ips|, ip);
    PrefixStep(BlockAddresses(b), ips, FormatIPv4(ip), |ips|);
    WalkValue(b, |ips|, ip);
  }

  lemma EntryIs(b: Block, k: nat, ip: seq<Byte>)
    requires ValidBlock(b) && k < HostCount(b.prefix) && |ip| == AddressSize
    requires FromValue(Value(b.network) + k, AddressSize) == ip
    ensures |BlockAddresses(b)| == HostCount(b.prefix) && BlockAddresses(b)[k] == FormatIPv4(ip)
  {
    BlockAddressIs(b, k);
    BlockAddressesAt(b, k);
  }

  lemma BlockAddressIs(b: Block, k: nat)
    requires ValidBlock(b) && k < HostCount(b.prefix)
    ensures BlockAddress(b, k) == FormatIPv4(FromValue(Value(b.network) + k, AddressSize))
  {
  }

  lemma BlockAddressesAt(b: Block, k: nat)
    requires ValidBlock(b) && k < HostCount(b.prefix)
    ensures |BlockAddresses(b)| == HostCount(b.prefix) && BlockAddresses(b)[k] == BlockAddress(b, k)
  {
  }

  lemma PrefixStep<T>(s: seq<T>, xs: seq<T>, x: T, n: nat)
    requires n < |s| && xs == s[..n] && x == s[n]
    ensures xs + [x] == s[..n + 1]
  {
  }

  lemma WalkValue(b: Block, n: nat, ip: seq<Byte>)
    requires ValidBlock(b) && b.prefix >= 1 && |ip| == AddressSize && n < HostCount(b.prefix)
    requires Value(ip) == Value(b.network) + n
    ensures n + 1 < HostCount(b.prefix) ==> Value(IncSeq(ip)) == Value(b.network) + n + 1
    ensures n + 1 == HostCount(b.prefix) ==> !Contains(b, IncSeq(ip))
  {
    NetworkBound(b);
    HostBelowAll(b.prefix);
    IncValue(ip);
    ContainsRange(b, IncSeq(ip));
  }

  /** `inc` on a four-byte address: one more, or 0 after 255.255.255.255. */
  lemma IncValue(ip: seq<Byte>)
    requires |ip| == AddressSize
    ensures Value(ip) + 1 < Pow2(AddressBits) ==> Value(IncSeq(ip)) == Value(ip) + 1
    ensures Value(ip) + 1 >= Pow2(AddressBits) ==> Value(IncSeq(ip)) == 0
  {
    assert 8 * |ip| == AddressBits;
    IncSeqValue(ip);
    ValueBound(ip);
    WrapInc(Value(IncSeq(ip)), Value(ip), Pow2(AddressBits));
  }

  lemma WrapInc(x: nat, v: nat, total: nat)
    requires v < total && x == (v + 1) % total
    ensures v + 1 < total ==> x == v + 1
    ensures v + 1 >= total ==> x == 0
  {
    if v + 1 < total {
      DivModUnique(v + 1, total, 0, v + 1);
    } else {
      DivModUnique(v + 1, total, 1, 0);
    }
  }

  /** When the walk stops it has listed the whole block. */
  lemma WalkDone(b: Block, ips: seq<string>, ip: seq<Byte>)
    requires ValidBlock(b) && Walked(b, ips, ip) && !Contains(b, ip)
    ensures ips == BlockAddresses(b)
  {
    ContainsRange(b, ip);
    assert BlockAddresses(b)[..HostCount(b.prefix)] == BlockAddresses(b);
  }

  /** A block of a prefix of at least 1 is smaller than the whole address space. */
  lemma HostBelowAll(prefix: nat)
    requires 1 <= prefix <= AddressBits
    ensures HostCount(prefix) < Pow2(AddressBits)
  {
    HostSplit(prefix);
    Pow2Monotone(1, prefix);
    MulMonotone(HostCount(prefix), 2, Pow2(prefix));
  }

  // ---------------------------------------------------------------------
  // Quick mode (speedtest/utils.go:53-73)
  // ---------------------------------------------------------------------

  /** The offset spread over four bytes, most significant first (`byte(offset >> (8 * (3 - i)))`). */
  function OffsetBytes(offset: nat): (r: seq<Byte>)
    ensures |r| == 4
  {
    [OffsetByte(offset, 0), OffsetByte(offset, 1), OffsetByte(offset, 2), OffsetByte(offset, 3)]
  }

  /**
   * The byte-wise sum `ip[i] += byte(offset >> …)` of a block's network
   * address and an offset inside the block is the address network + offset:
   * no carry is lost, so the `Contains` check that follows always passes.
   */
  lemma OffsetSum(b: Block, offset: nat)
    requires ValidBlock(b) && offset < HostCount(b.prefix)
    ensures Contains(b, AddBytes(b.network, OffsetBytes(offset)))
    ensures FormatIPv4(AddBytes(b.network, OffsetBytes(offset))) == BlockAddress(b, offset)
  {
    OffsetSumBytes(b, offset);
    BlockAddressIs(b, offset);
  }

  lemma OffsetSumBytes(b: Block, offset: nat)
    requires ValidBlock(b) && offset < HostCount(b.prefix)
    ensures Contains(b, AddBytes(b.network, OffsetBytes(offset)))
    ensures AddBytes(b.network, OffsetBytes(offset)) == FromValue(Value(b.network) + offset, AddressSize)
  {
    OffsetSumValue(b, offset);
    InBlock(b, AddBytes(b.network, OffsetBytes(offset)));
    SameAddress(AddBytes(b.network, OffsetBytes(offset)), Value(b.network) + offset);
  }

  lemma OffsetSumValue(b: Block, offset: nat)
    requires ValidBlock(b) && offset < HostCount(b.prefix)
    ensures |AddBytes(b.network, OffsetBytes(offset))| == AddressSize
    ensures Value(AddBytes(b.network, OffsetBytes(offset))) == Value(b.network) + offset
  {
    HostBelow(b.prefix, offset);
    OffsetBytesValue(offset);
    BlockAligned(b, Value(OffsetBytes(offset)));
    NoCarry(b.network, OffsetBytes(offset), AddressBits - b.prefix);
  }

  /** The network of a block is aligned to its host bits, and anything below the host count fits in them. */
  lemma BlockAligned(b: Block, x: nat)
    requires ValidBlock(b) && x < HostCount(b.prefix)
    ensures Value(b.network) % Pow2(AddressBits - b.prefix) == 0 && x < Pow2(AddressBits - b.prefix)
  {
  }

  lemma HostBelow(prefix: nat, offset: nat)
    requires prefix <= AddressBits && offset < HostCount(prefix)
    ensures offset < Pow2(AddressBits)
  {
    Pow2Monotone(AddressBits - prefix, AddressBits);
  }

  /** The offset's bytes denote the offset itself when it fits in 32 bits. */
  lemma OffsetBytesValue(offset: nat)
    requires offset < Pow2(AddressBits)
    ensures Value(OffsetBytes(offset)) == offset
  {
    var o := OffsetBytes(offset);
    forall i | 0 <= i < 4
      ensures o[i] == FromValue(offset, AddressSize)[i]
    {
      FromValueAt(offset, AddressSize, i);
    }
    assert o == FromValue(offset, AddressSize);
    ValueFromValueSmall(offset, AddressSize);
  }

  /** The numbers 0 .. n - 1. */
  function Below(n: nat): (r: set<nat>)
    ensures forall k :: k in r <==> 0 <= k < n
    ensures |r| == n
  {
    if n == 0 then {}
    else
      var r := Below(n - 1);
      assert n - 1 !in r;
      r + {n - 1}
  }

  /** Fewer than n numbers below n leave one undrawn. */
  lemma Undrawn(used: set<nat>, n: nat) returns (k: nat)
    requires forall j :: j in used ==> j < n
    requires |used| < n
    ensures k < n && k !in used
  {
    var below := Below(n);
    if below <= used {
      SubsetCard(below, used);
      assert false;
    }
    k :| k in below && k !in used;
  }

  lemma SubsetCard(a: set<nat>, b: set<nat>)
    requires a <= b
    ensures |a| <= |b|
  {
    assert b == a + (b - a);
  }

  /**
   * The quick-mode sample: each draw `r.Intn(numHosts)` picks an offset of the
   * block; the address network + offset is added to the set `randomIPs` until
   * it holds `quickmode + 1` addresses, which are then listed in map
   * iteration order. A draw that repeats an earlier offset leaves the set
   * unchanged, so the model draws only offsets whose address is not yet in
   * the set (`:|` chooses any of them).
   */
  method SampleBlock(b: Block, quickmode: nat) returns (ips: seq<string>)
    requires ValidBlock(b) && quickmode < HostCount(b.prefix)
    ensures Sampled(b, quickmode, ips)
  {
    var h := HostCount(b.prefix);
    var randomIPs: set<string> := {};
    ghost var used: set<nat> := {};
    while |randomIPs| < quickmode + 1
      invariant Drawn(b, used) && randomIPs == AddressesOf(b, used)
      invariant |randomIPs| == |used| <= quickmode + 1
      decreases quickmode + 1 - |used|
    {
      ghost var spare := Undrawn(used, h);
      NewAddress(b, used, spare);
      var offset :| offset < h && BlockAddress(b, offset) !in randomIPs;
      var ip := AddOffset(b.network, offset);
      DrawAdvance(b, used, offset, ip[..]);
      if Contains(b, ip[..]) {
        randomIPs := randomIPs + {FormatIPv4(ip[..])};
      }
      used := used + {offset};
    }
    ips := Elements(randomIPs);
    AddressesOfIn(b, used);
  }

  /** The offsets drawn so far all lie in the block. */
  ghost predicate Drawn(b: Block, used: set<nat>)
    requires ValidBlock(b)
  {
    forall k :: k in used ==> k < HostCount(b.prefix)
  }

  /** The addresses of the drawn offsets: the keys of `randomIPs`. */
  function AddressesOf(b: Block, used: set<nat>): set<string>
    requires ValidBlock(b)
  {
    set k | k in used && k < HostCount(b.prefix) :: BlockAddress(b, k)
  }

  /**
   * `ip := copy(ipNet.IP); ip[i] += byte(offset >> (8 * (3 - i)))`: the
   * network address with the offset added byte by byte, each byte wrapping.
   */
  method AddOffset(network: seq<Byte>, offset: nat) returns (ip: array<Byte>)
    requires |network| == AddressSize
    ensures fresh(ip) && ip[..] == AddBytes(network, OffsetBytes(offset))
  {
    ip := new Byte[4](i requires 0 <= i < 4 => network[i]);
    var i := 0;
    while i < 4
      invariant 0 <= i <= 4
      invariant ip[..] == AddBytes(network[..i], OffsetBytes(offset)[..i]) + network[i..]
    {
      ghost var before := ip[..];
      ip[i] := (ip[i] + OffsetByte(offset, i)) % 256;
      AddStep(network, OffsetBytes(offset), i, before, ip[..]);
      i := i + 1;
    }
    assert network[..4] == network && OffsetBytes(offset)[..4] == OffsetBytes(offset);
  }

  /**
   * A draw whose address is new: the summed address lies in the block and is
   * that address, its offset is new too, and the set grows by exactly it.
   */
  lemma DrawAdvance(b: Block, used: set<nat>, offset: nat, ip: seq<Byte>)
    requires ValidBlock(b) && Drawn(b, used) && offset < HostCount(b.prefix)
    requires BlockAddress(b, offset) !in AddressesOf(b, used)
    requires ip == AddBytes(b.network, OffsetBytes(offset))
    ensures Contains(b, ip) && FormatIPv4(ip) == BlockAddress(b, offset)
    ensures offset !in used && Drawn(b, used + {offset}) && |used + {offset}| == |used| + 1
    ensures AddressesOf(b, used + {offset}) == AddressesOf(b, used) + {FormatIPv4(ip)}
    ensures |AddressesOf(b, used + {offset})| == |AddressesOf(b, used)| + 1
  {
    OffsetSum(b, offset);
    NewAddress(b, used, offset);
  }

  lemma AddressesOfIn(b: Block, used: set<nat>)
    requires ValidBlock(b)
    ensures forall s :: s in AddressesOf(b, used) ==> s in BlockAddresses(b)
  {
    forall s | s in AddressesOf(b, used)
      ensures s in BlockAddresses(b)
    {
      var k :| k in used && k < HostCount(b.prefix) && s == BlockAddress(b, k);
      assert BlockAddresses(b)[k] == s;
    }
  }

  /** `quickmode + 1` distinct addresses, all from the block. */
  predicate Sampled(b: Block, quickmode: nat, ips: seq<string>)
    requires ValidBlock(b)
  {
    |ips| == quickmode + 1
    && (forall i, j :: 0 <= i < j < |ips| ==> ips[i] != ips[j])
    && (forall s :: s in ips ==> s in BlockAddresses(b))
  }

  /** One turn of the byte loop: byte i of the copy receives byte i of the offset. */
  lemma AddStep(a: seq<Byte>, o: seq<Byte>, i: nat, before: seq<Byte>, after: seq<Byte>)
    requires |a| == |o| && i < |a|
    requires before == AddBytes(a[..i], o[..i]) + a[i..]
    requires after == before[i := (before[i] as int + o[i] as int) % 256]
    ensures after == AddBytes(a[..i + 1], o[..i + 1]) + a[i + 1..]
  {
    AddBytesPrefix(a, o, i);
    assert |AddBytes(a[..i], o[..i])| == i;
    assert before[i] == a[i];
  }

  lemma AddBytesPrefix(a: seq<Byte>, o: seq<Byte>, i: nat)
    requires |a| == |o| && i < |a|
    ensures AddBytes(a[..i + 1], o[..i + 1]) == AddBytes(a[..i], o[..i]) + [(a[i] as int + o[i] as int) % 256]
  {
    assert a[..i + 1][..i] == a[..i];
    assert o[..i + 1][..i] == o[..i];
  }

  /** A fresh offset's address is not yet in the set, which therefore grows by one. */
  lemma NewAddress(b: Block, used: set<nat>, offset: nat)
    requires ValidBlock(b) && offset < HostCount(b.prefix) && Drawn(b, used)
    ensures offset !in used <==> BlockAddress(b, offset) !in AddressesOf(b, used)
    ensures AddressesOf(b, used) + {BlockAddress(b, offset)} == AddressesOf(b, used + {offset})
  {
    if BlockAddress(b, offset) in AddressesOf(b, used) {
      var k :| k in used && k < HostCount(b.prefix) && BlockAddress(b, k) == BlockAddress(b, offset);
      BlockAddressInjective(b, k, offset);
    }
  }

  /** `for ip := range randomIPs { ips = append(ips, ip) }`: the set's members in some order, each once. */
  method Elements(s: set<string>) returns (xs: seq<string>)
    ensures |xs| == |s|
    ensures forall x :: x in xs <==> x in s
    ensures forall i, j :: 0 <= i < j < |xs| ==> xs[i] != xs[j]
  {
    xs := [];
    var rest := s;
    while rest != {}
      invariant rest <= s
      invariant forall x :: x in xs <==> x in s - rest
      invariant |xs| + |rest| == |s|
      invariant forall i, j :: 0 <= i < j < |xs| ==> xs[i] != xs[j]
      decreases |rest|
    {
      var x :| x in rest;
      assert x !in xs;
      xs := xs + [x];
      rest := rest - {x};
    }
  }

  // ---------------------------------------------------------------------
  // One line of the address file, and the whole file
  // ---------------------------------------------------------------------

  /** Whether the model covers a line: IPv6 blocks and the endless /0 walk are outside it. */
  predicate Covered(line: string, quickmode: int) {
    '/' in line ==>
      !LooksLikeIPv6(AddressPart(line))
      && (ParseCidr(line).Some? && ParseCidr(line).value.prefix == 0 ==> Quick(ParseCidr(line).value, quickmode))
  }

  /** Quick mode samples a block when `quickmode > 0` and the block has more than `quickmode` addresses. */
  predicate Quick(b: Block, quickmode: int)
    requires b.prefix <= AddressBits
  {
    quickmode > 0 && HostCount(b.prefix) > quickmode
  }

  /** What `ReadIPs` appends for one line. */
  predicate LineExpansion(line: string, quickmode: int, chunk: seq<string>) {
    if '/' !in line then chunk == [line]
    else match ParseCidr(line)
      case None => chunk == []
      case Some(b) =>
        if Quick(b, quickmode) then Sampled(b, quickmode, chunk)
        else chunk == BlockAddresses(b)
  }

  function Concat(chunks: seq<seq<string>>): seq<string> {
    if chunks == [] then [] else Concat(chunks[..|chunks| - 1]) + chunks[|chunks| - 1]
  }

  /** The expansion of one line. */
  method ExpandLine(line: string, quickmode: int) returns (chunk: seq<string>)
    requires Covered(line, quickmode)
    ensures LineExpansion(line, quickmode, chunk)
  {
    if !Text.Contains(line, "/") {
      OneCharSearch(line, '/');
      return [line];
    }
    OneCharSearch(line, '/');
    var parsed := ParseCidr(line);
    if parsed.None? {
      return [];
    }
    var b := parsed.value;
    if quickmode > 0 {
      var numHosts := HostCount(b.prefix);
      if numHosts <= quickmode {
        chunk := EnumerateBlock(b);
      } else {
        chunk := SampleBlock(b, quickmode);
      }
    } else {
      chunk := EnumerateBlock(b);
    }
  }

  /** `strings.Contains(s, "/")` is membership of the character. */
  lemma OneCharSearch(s: string, c: char)
    ensures Text.Contains(s, [c]) <==> c in s
  {
    if c in s {
      var i :| 0 <= i < |s| && s[i] == c;
      assert Text.OccursAt(s, [c], i);
    }
    if Text.Contains(s, [c]) {
      var i :| 0 <= i <= |s| && Text.OccursAt(s, [c], i);
      assert s[i] == s[i..i + 1][0];
    }
  }

  /**
   * `ReadIPs` over the lines of the file: each line's expansion appended in
   * file order.
   */
  method ReadIPs(lines: seq<string>, quickmode: int) returns (ips: seq<string>, ghost chunks: seq<seq<string>>)
    requires forall i :: 0 <= i < |lines| ==> Covered(lines[i], quickmode)
    ensures |chunks| == |lines| && ips == Concat(chunks)
    ensures forall i :: 0 <= i < |lines| ==> LineExpansion(lines[i], quickmode, chunks[i])
  {
    ips, chunks := [], [];
    for n := 0 to |lines|
      invariant |chunks| == n && ips == Concat(chunks)
      invariant forall i :: 0 <= i < n ==> LineExpansion(lines[i], quickmode, chunks[i])
    {
      var chunk := ExpandLine(lines[n], quickmode);
      ips := ips + chunk;
      chunks := chunks + [chunk];
      assert chunks[..n] == chunks[..|chunks| - 1];
    }
  }
}
