/**
  The Internet checksum (RFC 1071) as computed by the router's two routines.

  `ip_checksum` adds 32-bit words from any alignment into a 64-bit accumulator;
  `icmp_checksum` adds 16-bit native words and folds twice. Both are methods here,
  proved against the 16-bit one's complement sum of section 2 of RFC 1071.
  The host is little-endian.
 */
module Checksum {

  type Bytes = s: seq<int> | forall i :: 0 <= i < |s| ==> 0 <= s[i] < 0x100
  type uint16 = w: int | 0 <= w < 0x1_0000
  type uint32 = w: int | 0 <= w < 0x1_0000_0000

  // ---------- The reference: section 2 of RFC 1071 ----------

  /** 16-bit one's complement addition: the carry out is added back in. */
  function OnesAdd(a: uint16, b: uint16): uint16 {
    if a + b < 0x1_0000 then a + b else a + b - 0xffff
  }

  /** The one's complement sum of the octets paired into big-endian words; an odd last octet is padded with zero. */
  function RfcSum(data: Bytes): uint16 {
    if data == [] then 0
    else if |data| == 1 then data[0] * 256
    else OnesAdd(data[0] * 256 + data[1], RfcSum(data[2..]))
  }

  ghost predicate AllZero(data: Bytes) {
    forall i :: 0 <= i < |data| ==> data[i] == 0
  }

  // ---------- Host byte order ----------

  function Htons(w: uint16): uint16 {
    w % 256 * 256 + w / 256
  }

  /** The 32-bit word a little-endian host loads from four bytes. */
  function Load32(b: Bytes): uint32
    requires |b| == 4
  {
    b[0] + 0x100 * b[1] + 0x1_0000 * b[2] + 0x100_0000 * b[3]
  }

  function Ntohl(w: uint32): uint32 {
    w % 0x100 * 0x100_0000 + w / 0x100 % 0x100 * 0x1_0000 + w / 0x1_0000 % 0x100 * 0x100 + w / 0x100_0000
  }

  /** A zeroed word into which `data` was copied from byte `offset` on. */
  function Placed(offset: nat, data: Bytes): (w: Bytes)
    requires offset + |data| <= 4
    ensures |w| == 4
  {
    seq(offset, _ => 0) + data + seq(4 - offset - |data|, _ => 0)
  }

  /** Storing a 16-bit value at a byte offset of a buffer, on a little-endian host. */
  function Store16(data: Bytes, i: nat, v: uint16): (r: Bytes)
    requires i + 1 < |data|
    ensures |r| == |data|
  {
    data[i := v % 256][i + 1 := v / 256]
  }

  /** The 16-bit word in network byte order at a byte offset of a buffer. */
  function WordAt(data: Bytes, i: nat): uint16
    requires i + 1 < |data|
  {
    data[i] * 256 + data[i + 1]
  }

  // ---------- Weighted byte sums ----------

  /** What a byte at address `pos` contributes to the big-endian 32-bit word it lies in. */
  function Weighted32(b: int, pos: nat): int {
    if pos % 4 == 0 then 0x100_0000 * b
    else if pos % 4 == 1 then 0x1_0000 * b
    else if pos % 4 == 2 then 0x100 * b
    else b
  }

  function Weighted16(b: int, pos: nat): int {
    if pos % 2 == 0 then 0x100 * b else b
  }

  /** The sum of the big-endian 32-bit words that memory holds when `data` starts at address `pos`. */
  ghost function BlockSum(data: Bytes, pos: nat): nat {
    if data == [] then 0 else Weighted32(data[0], pos) + BlockSum(data[1..], pos + 1)
  }

  /** The same for 16-bit words. */
  ghost function PairSum(data: Bytes, pos: nat): nat {
    if data == [] then 0 else Weighted16(data[0], pos) + PairSum(data[1..], pos + 1)
  }

  // ---------- Arithmetic modulo 65535 ----------

  function Multiple(k: int): int {
    0xffff * k
  }

  ghost predicate Congruent(a: int, b: int) {
    exists k :: a - b == Multiple(k)
  }

  lemma CongruentBy(a: int, b: int, k: int)
    requires a - b == 0xffff * k
    ensures Congruent(a, b)
  {
    assert a - b == Multiple(k);
  }

  lemma CongruentSum(a: int, b: int, c: int, d: int)
    requires Congruent(a, b) && Congruent(c, d)
    ensures Congruent(a + c, b + d) && Congruent(a - c, b - d)
  {
    var k, l :| a - b == Multiple(k) && c - d == Multiple(l);
    CongruentBy(a + c, b + d, k + l);
    CongruentBy(a - c, b - d, k - l);
  }

  lemma CongruentTrans(a: int, b: int, c: int)
    requires Congruent(a, b) && Congruent(b, c)
    ensures Congruent(a, c) && Congruent(c, a)
  {
    var k, l :| a - b == Multiple(k) && b - c == Multiple(l);
    CongruentBy(a, c, k + l);
    CongruentBy(c, a, -k - l);
  }

  lemma CongruentSelf(a: int)
    ensures Congruent(a, a)
  {
    CongruentBy(a, a, 0);
  }

  /** 256 * 256 is 1 modulo 65535, so multiplying by 256 twice changes nothing. */
  lemma Times256(a: int, b: int)
    requires Congruent(a, 256 * b)
    ensures Congruent(256 * a, b)
  {
    var k :| a - 256 * b == Multiple(k);
    CongruentBy(256 * a, b, 256 * k + b);
  }

  lemma Times256Both(a: int, b: int)
    requires Congruent(a, b)
    ensures Congruent(256 * a, 256 * b)
  {
    var k :| a - b == Multiple(k);
    CongruentBy(256 * a, 256 * b, 256 * k);
  }

  // ---------- Properties of the sums ----------

  lemma {:induction false} BlockSumAppend(a: Bytes, b: Bytes, pos: nat)
    ensures BlockSum(a + b, pos) == BlockSum(a, pos) + BlockSum(b, pos + |a|)
  {
    if a == [] {
      assert a + b == b;
    } else {
      BlockSumAppend(a[1..], b, pos + 1);
      assert (a + b)[1..] == a[1..] + b;
    }
  }

  lemma {:induction false} BlockSumShift(data: Bytes, pos: nat, pos': nat)
    requires pos % 4 == pos' % 4
    ensures BlockSum(data, pos) == BlockSum(data, pos')
  {
    if data != [] {
      assert (pos + 1) % 4 == (pos' + 1) % 4;
      BlockSumShift(data[1..], pos + 1, pos' + 1);
    }
  }

  /** What one iteration adds to the accumulator, whether the block is partial or complete. */
  lemma PlacedWordValue(offset: nat, data: Bytes)
    requires offset + |data| <= 4
    ensures Ntohl(Load32(Placed(offset, data))) == BlockSum(data, offset)
  {
    var left: Bytes, right: Bytes := seq(offset, _ => 0), seq(4 - offset - |data|, _ => 0);
    BlockSumAppend(left, data + right, 0);
    BlockSumAppend(data, right, offset);
    ZerosAddNothing(left, 0);
    ZerosAddNothing(right, offset + |data|);
    assert Placed(offset, data) == left + (data + right);
    SwapLoaded(Placed(offset, data));
    FourBytes(Placed(offset, data));
  }

  lemma {:induction false} ZerosAddNothing(data: Bytes, pos: nat)
    requires AllZero(data)
    ensures BlockSum(data, pos) == 0
  {
    if data != [] {
      ZerosAddNothing(data[1..], pos + 1);
    }
  }

  lemma FourBytes(b: Bytes)
    requires |b| == 4
    ensures BlockSum(b, 0) == b[0] * 0x100_0000 + b[1] * 0x1_0000 + b[2] * 0x100 + b[3]
  {
    assert b == [b[0]] + ([b[1]] + ([b[2]] + [b[3]]));
    BlockSumAppend([b[0]], [b[1]] + ([b[2]] + [b[3]]), 0);
    BlockSumAppend([b[1]], [b[2]] + [b[3]], 1);
    BlockSumAppend([b[2]], [b[3]], 2);
  }

  lemma SwapLoaded(b: Bytes)
    requires |b| == 4
    ensures Ntohl(Load32(b)) == b[0] * 0x100_0000 + b[1] * 0x1_0000 + b[2] * 0x100 + b[3]
  {
    SwapBytes(b[0], b[1], b[2], b[3]);
  }

  lemma Quotients(r3: int, q3: int, r2: int, q2: int, r1: int, q1: int)
    requires 0 <= r3 < 0x100_0000 && 0 <= r2 < 0x1_0000 && 0 <= r1 < 0x100
    ensures (r3 + 0x100_0000 * q3) / 0x100_0000 == q3
    ensures (r2 + 0x1_0000 * q2) / 0x1_0000 == q2
    ensures (r1 + 0x100 * q1) / 0x100 == q1 && (r1 + 0x100 * q1) % 0x100 == r1
  {
  }

  lemma SwapBytes(b0: int, b1: int, b2: int, b3: int)
    requires 0 <= b0 < 0x100 && 0 <= b1 < 0x100 && 0 <= b2 < 0x100 && 0 <= b3 < 0x100
    ensures Ntohl(b0 + 0x100 * b1 + 0x1_0000 * b2 + 0x100_0000 * b3) ==
            b0 * 0x100_0000 + b1 * 0x1_0000 + b2 * 0x100 + b3
  {
    var w := b0 + 0x100 * b1 + 0x1_0000 * b2 + 0x100_0000 * b3;
    Quotients(b0 + 0x100 * b1 + 0x1_0000 * b2, b3, b0 + 0x100 * b1, b2 + 0x100 * b3,
              b0, b1 + 0x100 * b2 + 0x1_0000 * b3);
    Quotients(0, 0, b0 + 0x100 * b1, b2, 0, 0);
    Quotients(0, 0, 0, 0, b1, b2 + 0x100 * b3);
    Quotients(0, 0, 0, 0, b2, b3);
    assert w / 0x100 == b1 + 0x100 * (b2 + 0x100 * b3);
    assert w / 0x1_0000 == b2 + 0x100 * b3;
  }

  /** 32-bit and 16-bit words have the same sum modulo 65535. */
  lemma {:induction false} BlockSumResidue(data: Bytes, pos: nat)
    ensures Congruent(BlockSum(data, pos), PairSum(data, pos))
  {
    if data == [] {
      CongruentSelf(0);
    } else {
      BlockSumResidue(data[1..], pos + 1);
      WeightResidue(data[0], pos);
      CongruentSum(Weighted32(data[0], pos), Weighted16(data[0], pos),
                   BlockSum(data[1..], pos + 1), PairSum(data[1..], pos + 1));
    }
  }

  lemma WeightResidue(b: int, pos: nat)
    ensures Congruent(Weighted32(b, pos), Weighted16(b, pos))
  {
    var w, v := Weighted32(b, pos), Weighted16(b, pos);
    Parity(pos);
    if pos % 4 == 0 {
      CongruentBy(w, v, 0x100 * b);
    } else if pos % 4 == 1 {
      CongruentBy(w, v, b);
    } else {
      CongruentSelf(w);
    }
  }

  /** Moving the start by one byte multiplies the sum by 256, modulo 65535. */
  lemma {:induction false} ByteOrderResidue(data: Bytes)
    ensures Congruent(PairSum(data, 1), 256 * PairSum(data, 0))
  {
    if data == [] {
      CongruentSelf(0);
    } else {
      var rest := data[1..];
      ByteOrderResidue(rest);
      PairSumShift(rest, 2, 0);
      var b, p0, p1 := data[0], PairSum(rest, 0), PairSum(rest, 1);
      Times256(p1, p0);
      CongruentTrans(256 * p1, p0, p0) by { CongruentSelf(p0); }
      CongruentBy(b, 0x1_0000 * b, -b);
      CongruentSum(b, 0x1_0000 * b, p0, 256 * p1);
    }
  }

  lemma {:induction false} PairSumShift(data: Bytes, pos: nat, pos': nat)
    requires pos % 2 == pos' % 2
    ensures PairSum(data, pos) == PairSum(data, pos')
  {
    if data != [] {
      PairSumShift(data[1..], pos + 1, pos' + 1);
    }
  }

  /** End-around carry only changes the sum by a multiple of 65535, and never turns a non-zero sum into zero. */
  lemma {:induction false} RfcSumResidue(data: Bytes)
    ensures Congruent(RfcSum(data), PairSum(data, 0))
    ensures RfcSum(data) == 0 <==> AllZero(data)
  {
    if |data| < 2 {
      CongruentSelf(RfcSum(data));
    } else {
      RfcSumResidue(data[2..]);
      PairSumTwo(data, 0);
      OnesAddResidue(data[0] * 256 + data[1], RfcSum(data[2..]));
      CongruentSelf(data[0] * 256 + data[1]);
      CongruentSum(data[0] * 256 + data[1], data[0] * 256 + data[1], RfcSum(data[2..]), PairSum(data[2..], 0));
      CongruentTrans(RfcSum(data), data[0] * 256 + data[1] + RfcSum(data[2..]), PairSum(data, 0));
      AllZeroTwo(data);
    }
  }

  lemma OnesAddResidue(a: uint16, b: uint16)
    ensures Congruent(OnesAdd(a, b), a + b)
    ensures OnesAdd(a, b) == 0 <==> a == 0 && b == 0
  {
    var s: int := a as int + b as int;
    CongruentBy(OnesAdd(a, b), s, if s < 0x1_0000 then 0 else -1);
  }

  lemma PairSumTwo(data: Bytes, pos: nat)
    requires |data| >= 2
    ensures PairSum(data, pos) == Weighted16(data[0], pos) + Weighted16(data[1], pos + 1) + PairSum(data[2..], pos)
  {
    assert data[1..][1..] == data[2..];
    PairSumShift(data[2..], pos + 2, pos);
  }

  lemma AllZeroTwo(data: Bytes)
    requires |data| >= 2
    ensures AllZero(data) <==> data[0] == 0 && data[1] == 0 && AllZero(data[2..])
  {
  }

  // ---------- ip_checksum ----------

  /** The one's complement sum with minus zero (0xffff) in place of zero. */
  function SumOf(data: Bytes): (r: uint16)
    ensures r > 0
  {
    if RfcSum(data) == 0 then 0xffff else RfcSum(data)
  }

  /** The value `ip_checksum` returns, in network byte order; `IpChecksum` below is proved against it. */
  function IpChecksumOf(data: Bytes): uint16 {
    Htons(0xffff - SumOf(data))
  }

  /** Residue and range determine the folded sum. */
  lemma SumUnique(data: Bytes, r: int)
    requires 0 < r < 0x1_0000 && Congruent(r, PairSum(data, 0))
    ensures r == SumOf(data)
  {
    SumResidue(data);
    CongruentTrans(SumOf(data), PairSum(data, 0), PairSum(data, 0)) by { CongruentSelf(PairSum(data, 0)); }
    CongruentTrans(r, PairSum(data, 0), SumOf(data));
  }

  lemma SumResidue(data: Bytes)
    ensures Congruent(SumOf(data), PairSum(data, 0))
  {
    RfcSumResidue(data);
    CongruentBy(SumOf(data), RfcSum(data), if RfcSum(data) == 0 then 1 else 0);
    CongruentTrans(SumOf(data), RfcSum(data), PairSum(data, 0));
  }

  lemma FoldStep(acc: nat)
    ensures Congruent(acc % 0x1_0000 + acc / 0x1_0000, acc)
    ensures acc >= 0x1_0000 ==> 0 < acc % 0x1_0000 + acc / 0x1_0000 < acc
  {
    CongruentBy(acc % 0x1_0000 + acc / 0x1_0000, acc, -(acc / 0x1_0000));
  }

  lemma FoldStep32(acc: nat)
    ensures Congruent(acc % 0x1_0000_0000 + acc / 0x1_0000_0000, acc)
    ensures acc > 0 ==> acc % 0x1_0000_0000 + acc / 0x1_0000_0000 > 0
  {
    CongruentBy(acc % 0x1_0000_0000 + acc / 0x1_0000_0000, acc, -0x1_0001 * (acc / 0x1_0000_0000));
  }

  /** Swapping the bytes of a 16-bit value multiplies it by 256, modulo 65535. */
  lemma SwapResidue(w: uint16)
    ensures Congruent(Htons(w), 256 * w)
    ensures 0 < w ==> 0 < Htons(w)
  {
    CongruentBy(Htons(w), 256 * w, -(w / 256));
  }

  /**
    `ip_checksum` on `data` starting at address `addr`. The accumulator is a 64-bit
    unsigned integer; up to 2^34 - 8 bytes it cannot wrap around. The result depends
    on the bytes alone, not on the alignment.
   */
  method IpChecksum(data: Bytes, addr: nat) returns (r: uint16)
    requires |data| <= 0x3_ffff_fff8
    ensures r == IpChecksumOf(data)
  {
    var acc := AddBlocks(data, addr);
    acc := FoldCarries(acc);
    Folded(acc, data, addr);
    if addr % 4 % 2 == 1 {
      acc := acc / 256 + acc % 256 * 256;
    }
    r := Htons(0xffff - acc);
  }

  lemma Parity(addr: nat)
    ensures addr % 4 % 2 == addr % 2
  {
  }

  /** The folded accumulator, byte-swapped for an odd address, is the RFC 1071 sum. */
  lemma Folded(acc: int, data: Bytes, addr: nat)
    requires 0 < acc < 0x1_0000 && Congruent(acc, 0xffff + BlockSum(data, addr))
    ensures (if addr % 4 % 2 == 1 then acc / 256 + acc % 256 * 256 else acc) == SumOf(data)
  {
    Parity(addr);
    BlockSumResidue(data, addr);
    DropSeed(acc, BlockSum(data, addr), PairSum(data, addr));
    if addr % 2 == 1 {
      PairSumShift(data, addr, 1);
      ByteOrderResidue(data);
      SwapBack(acc, PairSum(data, 1), PairSum(data, 0));
      SumUnique(data, acc / 256 + acc % 256 * 256);
    } else {
      PairSumShift(data, addr, 0);
      SumUnique(data, acc);
    }
  }

  /** Adds the partial first block, the complete 32-bit blocks and the partial last block. */
  method AddBlocks(data: Bytes, addr: nat) returns (acc: nat)
    requires |data| <= 0x3_ffff_fff8
    ensures acc == 0xffff + BlockSum(data, addr)
  {
    var pos;
    acc, pos := AddFirstBlock(data, addr);
    acc, pos := AddWholeBlocks(data, addr, acc, pos);
    if pos < |data| {
      AppendBlock(data, pos, |data| - pos, addr);
      assert data[pos..] == data[pos..pos + (|data| - pos)];
      acc := Accumulate(acc, 0, data[pos..]);
    }
    assert data[..|data|] == data;
  }

  /** Handles any partial block at the start of the data, up to an aligned address. */
  method AddFirstBlock(data: Bytes, addr: nat) returns (acc: nat, pos: nat)
    ensures pos <= |data| && (pos < |data| ==> (addr + pos) % 4 == 0)
    ensures acc == 0xffff + BlockSum(data[..pos], addr) <= 0xffff + 0xffff_ffff
  {
    acc, pos := 0xffff, 0;
    var offset := addr % 4;
    if offset != 0 {
      var count := 4 - offset;
      if count > |data| {
        count := |data|;
      }
      BlockSumShift(data[..count], addr, offset);
      acc := Accumulate(acc, offset, data[..count]);
      pos := count;
    }
  }

  /** Handles the complete 32-bit blocks. */
  method AddWholeBlocks(data: Bytes, addr: nat, acc0: nat, start: nat) returns (acc: nat, pos: nat)
    requires |data| <= 0x3_ffff_fff8
    requires start <= |data| && (start < |data| ==> (addr + start) % 4 == 0)
    requires acc0 == 0xffff + BlockSum(data[..start], addr) <= 0xffff + 0xffff_ffff
    ensures start <= pos <= |data| < pos + 4 && (pos < |data| ==> (addr + pos) % 4 == 0)
    ensures acc == 0xffff + BlockSum(data[..pos], addr) <= 0xffff_ffff_0000_0000
  {
    acc, pos := acc0, start;
    var end := start + (|data| - start) / 4 * 4;
    ghost var blocks := 1;
    while pos != end
      invariant start <= pos <= end && pos == start + 4 * (blocks - 1)
      invariant acc == 0xffff + BlockSum(data[..pos], addr)
      invariant acc <= 0xffff + blocks * 0xffff_ffff
      decreases end - pos
    {
      StillAligned(addr + start, blocks - 1);
      AppendBlock(data, pos, 4, addr);
      acc := AddBlock(acc, data[pos..pos + 4], blocks);
      pos := pos + 4;
      blocks := blocks + 1;
    }
    StillAligned(addr + start, blocks - 1);
  }

  lemma StillAligned(a: nat, n: nat)
    ensures (a + 4 * n) % 4 == a % 4
  {
  }

  /** One more complete block cannot wrap the accumulator while fewer than 2^32 have been added. */
  method AddBlock(acc: nat, block: Bytes, ghost blocks: nat) returns (r: nat)
    requires |block| == 4 && acc <= 0xffff + blocks * 0xffff_ffff && blocks < 0x1_0000_0000
    ensures r == acc + BlockSum(block, 0) <= 0xffff + (blocks + 1) * 0xffff_ffff
  {
    assert blocks * 0xffff_ffff <= 0xffff_ffff * 0xffff_ffff;
    r := Accumulate(acc, 0, block);
  }

  /** Handling the deferred carries: the loop ends with the representative in 1..65535. */
  method FoldCarries(sum: nat) returns (acc: nat)
    requires sum > 0
    ensures 0 < acc < 0x1_0000 && Congruent(acc, sum)
  {
    FoldStep32(sum);
    acc := sum % 0x1_0000_0000 + sum / 0x1_0000_0000;
    while acc >= 0x1_0000
      invariant acc > 0 && Congruent(acc, sum)
      decreases acc
    {
      FoldStep(acc);
      CongruentTrans(acc % 0x1_0000 + acc / 0x1_0000, acc, sum);
      acc := acc % 0x1_0000 + acc / 0x1_0000;
    }
  }

  lemma DropSeed(acc: nat, blocks: nat, pairs: nat)
    requires Congruent(acc, 0xffff + blocks) && Congruent(blocks, pairs)
    ensures Congruent(acc, pairs)
  {
    CongruentBy(0xffff + blocks, blocks, 1);
    CongruentTrans(0xffff + blocks, blocks, pairs);
    CongruentTrans(acc, 0xffff + blocks, pairs);
  }

  /** Reversing the byte order compensates for an odd start address. */
  lemma SwapBack(acc: uint16, odd: nat, even: nat)
    requires 0 < acc && Congruent(acc, odd) && Congruent(odd, 256 * even)
    ensures var r := acc / 256 + acc % 256 * 256; 0 < r < 0x1_0000 && Congruent(r, even)
  {
    CongruentTrans(acc, odd, 256 * even);
    Times256(acc, even);
    SwapResidue(acc);
    CongruentTrans(Htons(acc), 256 * acc, even);
  }

  /** `acc += ntohl(word)` on a 64-bit accumulator, for a word holding `data` from byte `offset` on. */
  function Accumulate(acc: nat, offset: nat, data: Bytes): (r: nat)
    requires offset + |data| <= 4
    ensures acc <= 0xffff_ffff_ffff_ffff - 0xffff_ffff ==> r == acc + BlockSum(data, offset) <= acc + 0xffff_ffff
  {
    PlacedWordValue(offset, data);
    (acc + Ntohl(Load32(Placed(offset, data)))) % 0x1_0000_0000_0000_0000
  }

  lemma AppendBlock(data: Bytes, pos: nat, n: nat, addr: nat)
    requires pos + n <= |data| && (addr + pos) % 4 == 0
    ensures BlockSum(data[..pos + n], addr) == BlockSum(data[..pos], addr) + BlockSum(data[pos..pos + n], 0)
  {
    assert data[..pos + n] == data[..pos] + data[pos..pos + n];
    BlockSumAppend(data[..pos], data[pos..pos + n], addr);
    BlockSumShift(data[pos..pos + n], addr + pos, 0);
  }

  /** The complement of the RFC 1071 sum, except that an all-zero buffer gives 0 where the RFC gives 0xffff. */
  lemma IpChecksumMeetsRfc(data: Bytes)
    ensures IpChecksumOf(data) == Htons(0xffff - RfcSum(data)) <==> !AllZero(data)
    ensures AllZero(data) ==> IpChecksumOf(data) == 0
  {
  }

  // ---------- Filling in and checking a checksum field ----------

  lemma {:induction false} PairSumUpdate(data: Bytes, pos: nat, i: nat, b: int)
    requires i < |data| && 0 <= b < 0x100
    ensures PairSum(data[i := b], pos) == PairSum(data, pos) + Weighted16(b - data[i], pos + i)
  {
    if i == 0 {
      assert data[i := b][1..] == data[1..];
    } else {
      PairSumUpdate(data[1..], pos + 1, i - 1, b);
      assert data[i := b][1..] == data[1..][i - 1 := b];
    }
  }

  lemma TwoByteUpdate(data: Bytes, i: nat, b0: int, b1: int)
    requires i % 2 == 0 && i + 1 < |data| && 0 <= b0 < 0x100 && 0 <= b1 < 0x100
    ensures var r := data[i := b0][i + 1 := b1];
            PairSum(r, 0) == PairSum(data, 0) - WordAt(data, i) + WordAt(r, i)
  {
    PairSumUpdate(data, 0, i, b0);
    PairSumUpdate(data[i := b0], 0, i + 1, b1);
  }

  lemma Store16Sum(data: Bytes, i: nat, v: uint16)
    requires i % 2 == 0 && i + 1 < |data|
    ensures WordAt(Store16(data, i, v), i) == Htons(v)
    ensures PairSum(Store16(data, i, v), 0) == PairSum(data, 0) - WordAt(data, i) + Htons(v)
  {
    TwoByteUpdate(data, i, v % 256, v / 256);
  }

  lemma HtonsTwice(w: uint16)
    ensures Htons(Htons(w)) == w
  {
    var (high, low) := (w / 256, w % 256);
    assert w == high * 256 + low;
    HtonsOfBytes(high, low);
    HtonsOfBytes(low, high);
  }

  lemma HtonsOfBytes(high: int, low: int)
    requires 0 <= high < 256 && 0 <= low < 256
    ensures Htons(high * 256 + low) == low * 256 + high
  {
  }

  /** A buffer passes the check exactly when its sum is a multiple of 65535. */
  lemma ValidResidue(data: Bytes)
    ensures IpChecksumOf(data) == 0 <==> Congruent(0, PairSum(data, 0))
  {
    SumResidue(data);
    CongruentBy(0, 0xffff, -1);
    if IpChecksumOf(data) == 0 {
      CongruentTrans(0, 0xffff, PairSum(data, 0));
    } else if Congruent(0, PairSum(data, 0)) {
      CongruentBy(0xffff, 0, 1);
      CongruentTrans(0xffff, 0, PairSum(data, 0));
      SumUnique(data, 0xffff);
    }
  }

  /** The field that `ip_checksum` of the rest asks for makes the whole buffer check out. */
  function Filled(data: Bytes, i: nat): Bytes
    requires i + 1 < |data|
  {
    var zeroed := Store16(data, i, 0);
    Store16(zeroed, i, IpChecksumOf(zeroed))
  }

  lemma FillThenVerify(data: Bytes, i: nat)
    requires i % 2 == 0 && i + 1 < |data|
    ensures IpChecksumOf(Filled(data, i)) == 0
  {
    var zeroed := Store16(data, i, 0);
    FilledSum(data, i);
    SumResidue(zeroed);
    CongruentSum(SumOf(zeroed), PairSum(zeroed, 0), PairSum(zeroed, 0), PairSum(zeroed, 0))
      by { CongruentSelf(PairSum(zeroed, 0)); }
    CongruentBy(0, 0xffff - SumOf(zeroed) + SumOf(zeroed), -1);
    CongruentSelf(0xffff - SumOf(zeroed));
    CongruentSum(0xffff - SumOf(zeroed), 0xffff - SumOf(zeroed), SumOf(zeroed), PairSum(zeroed, 0));
    CongruentTrans(0, 0xffff, PairSum(Filled(data, i), 0));
    ValidResidue(Filled(data, i));
  }

  lemma FilledSum(data: Bytes, i: nat)
    requires i % 2 == 0 && i + 1 < |data|
    ensures var c := 0xffff - SumOf(Store16(data, i, 0));
            && WordAt(Filled(data, i), i) == c
            && PairSum(Filled(data, i), 0) == PairSum(Store16(data, i, 0), 0) + c
            && PairSum(Store16(data, i, 0), 0) == PairSum(data, 0) - WordAt(data, i)
  {
    var zeroed := Store16(data, i, 0);
    Store16Sum(data, i, 0);
    Store16Sum(zeroed, i, IpChecksumOf(zeroed));
    HtonsTwice(0xffff - SumOf(zeroed));
  }

  /** In a valid buffer, a changed aligned word is detected unless 0x0000 and 0xffff were exchanged. */
  lemma WordChangeDetected(data: Bytes, i: nat, v: uint16)
    requires i % 2 == 0 && i + 1 < |data| && IpChecksumOf(data) == 0
    ensures IpChecksumOf(Store16(data, i, v)) == 0 <==>
            Htons(v) == WordAt(data, i) || {Htons(v), WordAt(data, i)} == {0, 0xffff}
  {
    var before: int, after: int := PairSum(data, 0), PairSum(Store16(data, i, v), 0);
    var w': int, w: int := Htons(v), WordAt(data, i);
    Store16Sum(data, i, v);
    ValidResidue(data);
    ValidResidue(Store16(data, i, v));
    assert after - before == w' - w;
    SmallMultiples(w' - w);
    if Congruent(0, after) {
      CongruentSum(0, after, 0, before);
    } else if Congruent(0, w' - w) {
      CongruentSum(0, before, 0, w' - w);
    }
  }

  lemma SmallMultiples(d: int)
    requires -0x1_0000 < d < 0x1_0000
    ensures Congruent(0, d) <==> d == 0 || d == 0xffff || d == -0xffff
  {
    if d == 0 || d == 0xffff || d == -0xffff {
      CongruentBy(0, d, if d == 0 then 0 else if d > 0 then -1 else 1);
    }
  }

  /** The incremental update of section 3 of RFC 1624: HC' = ~(~HC + ~m + m'). */
  function Rfc1624(hc: uint16, m: uint16, m': uint16): uint16 {
    0xffff - OnesAdd(OnesAdd(0xffff - hc, 0xffff - m), m')
  }

  /**
    Decrementing the TTL (byte 8) of a valid 20-byte header and recomputing the field
    (byte 10): the header stays valid, and the field is the one RFC 1624 computes
    incrementally, that is the old one plus 0x0100 modulo 65535.
   */
  lemma TtlDecrement(h: Bytes)
    requires |h| == 20 && IpChecksumOf(h) == 0 && h[8] > 0
    ensures var r := Filled(h[8 := h[8] - 1], 10);
            && IpChecksumOf(r) == 0
            && WordAt(r, 10) == (WordAt(h, 10) + 0x100) % 0xffff
            && WordAt(r, 10) == Rfc1624(WordAt(h, 10), WordAt(h, 8), WordAt(r, 8))
  {
    var d: Bytes := h[8 := h[8] - 1];
    FillThenVerify(d, 10);
    FilledSum(d, 10);
    TtlSum(h);
    Rfc1624Value(WordAt(h, 10), SumOf(Store16(d, 10, 0)), WordAt(h, 8));
  }

  /** The sum over the new header, its checksum field zeroed, by the old field. */
  lemma TtlSum(h: Bytes)
    requires |h| == 20 && IpChecksumOf(h) == 0 && h[8] > 0
    ensures Congruent(SumOf(Store16(h[8 := h[8] - 1], 10, 0)), -0x100 - (WordAt(h, 10) as int))
  {
    var d: Bytes := h[8 := h[8] - 1];
    var zeroed := Store16(d, 10, 0);
    TtlPairs(h);
    SumResidue(zeroed);
    ValidResidue(h);
    CongruentSum(SumOf(zeroed), PairSum(zeroed, 0), 0, PairSum(h, 0));
  }

  lemma TtlPairs(h: Bytes)
    requires |h| == 20 && h[8] > 0
    ensures PairSum(Store16(h[8 := h[8] - 1], 10, 0), 0) == PairSum(h, 0) - 0x100 - (WordAt(h, 10) as int)
  {
    PairSumUpdate(h, 0, 8, h[8] - 1);
    FilledSum(h[8 := h[8] - 1], 10);
  }

  lemma Rfc1624Value(hc: int, s: int, m: int)
    requires 0 <= hc < 0x1_0000 && 0 < s < 0x1_0000 && m < 0x1_0000 && Congruent(s, -hc - 0x100) && m >= 0x100
    ensures 0xffff - s == (hc + 0x100) % 0xffff
    ensures 0xffff - s == Rfc1624(hc, m, m - 0x100)
  {
  }

  // ---------- icmp_checksum ----------

  /** The sum of the native (little-endian) 16-bit words of an even-length buffer. */
  ghost function NativeSum(data: Bytes): nat
    requires |data| % 2 == 0
  {
    if data == [] then 0 else data[0] + 0x100 * data[1] + NativeSum(data[2..])
  }

  lemma {:induction false} NativeSumAppend(a: Bytes, b: Bytes)
    requires |a| % 2 == 0 && |b| % 2 == 0
    ensures NativeSum(a + b) == NativeSum(a) + NativeSum(b)
  {
    if a == [] {
      assert a + b == b;
    } else {
      NativeSumAppend(a[2..], b);
      assert (a + b)[2..] == a[2..] + b;
    }
  }

  lemma {:induction false} NativeSumFacts(data: Bytes)
    requires |data| % 2 == 0
    ensures NativeSum(data) == PairSum(data, 1)
    ensures NativeSum(data) <= |data| / 2 * 0xffff
    ensures NativeSum(data) == 0 <==> AllZero(data)
  {
    if data != [] {
      NativeSumFacts(data[2..]);
      PairSumTwo(data, 1);
      AllZeroTwo(data);
    }
  }

  /** The first of the two folds; the second adds the carry without masking, and the result is truncated. */
  function FoldOnce(sum: nat): nat {
    sum / 0x1_0000 + sum % 0x1_0000
  }

  function FoldTwice(sum: nat): uint16 {
    (FoldOnce(sum) + FoldOnce(sum) / 0x1_0000) % 0x1_0000
  }

  /**
    `icmp_checksum` on `size` bytes of a buffer, `size` being a 32-bit unsigned integer. An
    odd size makes it read one byte beyond.
   */
  method IcmpChecksum(buffer: Bytes, size: uint32) returns (r: uint16)
    requires size + size % 2 <= |buffer|
    ensures r == 0xffff - FoldTwice(NativeSum(buffer[..size + size % 2]))
  {
    var cksum := SumWords(buffer, size);
    cksum := cksum / 0x1_0000 + cksum % 0x1_0000;
    cksum := cksum + cksum / 0x1_0000;
    r := 0xffff - cksum % 0x1_0000;
  }

  /** The loop over the words, and the odd byte that is read as a word. */
  method SumWords(buffer: Bytes, size: nat) returns (cksum: nat)
    requires size + size % 2 <= |buffer|
    ensures cksum == NativeSum(buffer[..size + size % 2])
  {
    cksum := 0;
    var pos: nat, left: nat := 0, size;
    while left > 1
      invariant pos + left == size && pos % 2 == 0
      invariant cksum == NativeSum(buffer[..pos])
    {
      NextNativeWord(buffer, pos);
      cksum := cksum + (buffer[pos] + 0x100 * buffer[pos + 1]);
      pos, left := pos + 2, left - 2;
    }
    if left != 0 {
      NextNativeWord(buffer, pos);
      cksum := cksum + (buffer[pos] + 0x100 * buffer[pos + 1]);
    }
  }

  lemma NextNativeWord(buffer: Bytes, pos: nat)
    requires pos % 2 == 0 && pos + 2 <= |buffer|
    ensures NativeSum(buffer[..pos + 2]) == NativeSum(buffer[..pos]) + buffer[pos] + 0x100 * buffer[pos + 1]
  {
    assert buffer[..pos + 2] == buffer[..pos] + [buffer[pos], buffer[pos + 1]];
    NativeSumAppend(buffer[..pos], [buffer[pos], buffer[pos + 1]]);
  }

  ghost predicate SecondFoldCarries(sum: nat) {
    FoldOnce(sum) % 0x1_0000 + FoldOnce(sum) / 0x1_0000 >= 0x1_0000
  }

  /**
    Folding twice is enough exactly when the second fold leaves no carry; otherwise the result
    is one too small. Sums are
    below 2^31 * 65535, as a 32-bit size allows at most 2^31 words.
   */
  lemma FoldTwiceResidue(sum: nat)
    requires 0 < sum <= 0x8000_0000 * 0xffff
    ensures FoldTwice(sum) > 0 && Congruent(FoldTwice(sum), sum) <==> !SecondFoldCarries(sum)
    ensures SecondFoldCarries(sum) ==> Congruent(FoldTwice(sum) + 1, sum)
  {
    var c := FoldOnce(sum);
    var s := c % 0x1_0000 + c / 0x1_0000;
    FoldStep(sum);
    FoldStep(c);
    CongruentTrans(s, c, sum);
    assert FoldTwice(sum) == if s < 0x1_0000 then s else s - 0x1_0000;
    if SecondFoldCarries(sum) {
      var k :| s - sum == Multiple(k);
      CongruentBy(s - 0xffff, sum, k - 1);
    }
    if SecondFoldCarries(sum) && Congruent(FoldTwice(sum), sum) {
      CongruentSum(s, sum, FoldTwice(sum), sum);
      NotCongruent();
    }
  }

  lemma NotCongruent()
    ensures !Congruent(0x1_0000, 0)
  {
  }

  /**
    On a little-endian host the two routines return the same value, so store the same
    two bytes, for exactly those even-length buffers that are not all zero and whose
    sum two folds reduce.
   */
  lemma ChecksumsAgreeIff(data: Bytes)
    requires |data| % 2 == 0 && |data| < 0x1_0000_0000
    ensures IpChecksumOf(data) == 0xffff - FoldTwice(NativeSum(data)) <==>
            !AllZero(data) && !SecondFoldCarries(NativeSum(data))
  {
    NativeSumFacts(data);
    if AllZero(data) {
      ZeroDiffers(data);
    } else {
      NativeResidue(data);
      SwappedComplement(data);
      ComplementReached(IpChecksumOf(data), Htons(SumOf(data)), NativeSum(data));
    }
  }

  lemma ZeroDiffers(data: Bytes)
    requires |data| % 2 == 0 && AllZero(data)
    ensures IpChecksumOf(data) != 0xffff - FoldTwice(NativeSum(data))
  {
    NativeSumFacts(data);
    ZeroChecksum(data);
    FoldTwiceZero();
  }

  lemma ZeroChecksum(data: Bytes)
    requires AllZero(data)
    ensures IpChecksumOf(data) == 0
  {
    IpChecksumMeetsRfc(data);
  }

  lemma FoldTwiceZero()
    ensures FoldTwice(0) == 0
  {
  }

  /** `ip_checksum` returns the complement of the sum in the other byte order. */
  lemma SwappedComplement(data: Bytes)
    ensures 0 < Htons(SumOf(data)) && IpChecksumOf(data) == 0xffff - Htons(SumOf(data))
  {
    HtonsComplement(SumOf(data));
    SwapResidue(SumOf(data));
  }

  lemma ComplementReached(check: int, r: int, sum: nat)
    requires 0 < sum <= 0x8000_0000 * 0xffff && 0 < r < 0x1_0000 && Congruent(sum, r) && check == 0xffff - r
    ensures check == 0xffff - FoldTwice(sum) <==> !SecondFoldCarries(sum)
  {
    TwoFoldsReach(sum, r);
  }

  lemma TwoFoldsReach(sum: nat, r: int)
    requires 0 < sum <= 0x8000_0000 * 0xffff && 0 < r < 0x1_0000 && Congruent(sum, r)
    ensures FoldTwice(sum) == r <==> !SecondFoldCarries(sum)
  {
    FoldTwiceResidue(sum);
    if !SecondFoldCarries(sum) {
      CongruentTrans(FoldTwice(sum), sum, r);
      CongruentUnique(FoldTwice(sum), r);
    } else if FoldTwice(sum) == r {
      CongruentSelf(r);
      CongruentTrans(sum, r, r);
    }
  }

  lemma CongruentUnique(a: int, b: int)
    requires Congruent(a, b) && 0 < a < 0x1_0000 && 0 < b < 0x1_0000
    ensures a == b
  {
  }

  /** Loading the words in the other byte order swaps the bytes of the sum. */
  lemma NativeResidue(data: Bytes)
    requires |data| % 2 == 0
    ensures Congruent(NativeSum(data), Htons(SumOf(data)))
  {
    var e := PairSum(data, 0);
    NativeSumFacts(data);
    ByteOrderResidue(data);
    SumResidue(data);
    Times256Both(SumOf(data), e);
    SwapResidue(SumOf(data));
    CongruentTrans(Htons(SumOf(data)), 256 * SumOf(data), 256 * e);
    CongruentSelf(256 * e);
    CongruentTrans(NativeSum(data), 256 * e, 256 * e);
    CongruentTrans(Htons(SumOf(data)), 256 * e, NativeSum(data));
  }

  lemma HtonsComplement(w: uint16)
    ensures Htons(0xffff - w) == 0xffff - Htons(w)
  {
  }

  /** At most 65537 words: the sum is below 2^32 and the two routines agree unless all bytes are zero. */
  lemma ChecksumsAgree(data: Bytes)
    requires |data| % 2 == 0 && |data| / 2 <= 65537
    ensures IpChecksumOf(data) == 0xffff - FoldTwice(NativeSum(data)) <==> !AllZero(data)
  {
    NativeSumFacts(data);
    assert FoldOnce(NativeSum(data)) <= 0x1_fffe;
    ChecksumsAgreeIff(data);
  }

  function OnesThenOne(words: nat): Bytes {
    seq(2 * words, _ => 0xff) + [1, 0]
  }

  /** A longer buffer on which they differ: 65538 words of 0xffff and one word more. */
  lemma ChecksumsCanDiffer(words: nat)
    requires words == 65538
    ensures var data := OnesThenOne(words); IpChecksumOf(data) != 0xffff - FoldTwice(NativeSum(data))
  {
    var data := OnesThenOne(words);
    OnesSum(words);
    assert data[2 * words] == 1;
    assert FoldOnce(NativeSum(data)) == 0x1_ffff;
    ChecksumsAgreeIff(data);
  }

  lemma {:induction false} OnesSum(words: nat)
    ensures NativeSum(OnesThenOne(words)) == words * 0xffff + 1
  {
    if words == 0 {
      assert OnesThenOne(0)[2..] == [];
    } else {
      OnesSum(words - 1);
      assert OnesThenOne(words)[2..] == OnesThenOne(words - 1);
    }
  }
}
