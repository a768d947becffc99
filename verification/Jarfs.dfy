/** On-disk layout of JARFS (filesystem/src/jarfs.c). Bytes are natural numbers below 256;
    structures have the layout of the x86-64 ABI: a 120-byte superblock with its checksum
    in the last 8 bytes, and 84-byte inodes. */
module JarfsLayout {
  import opened Bits

  const BLOCK: nat := 4096
  const MIN_SIZE: nat := 16 * 1024 * 1024
  const MAGIC: nat := 0x4A415256
  const INODE_SIZE: nat := 84
  const SB_SIZE: nat := 120
  const SUMMED: nat := 112
  const U64: nat := 0x1_0000_0000_0000_0000

  function DivRoundUp(n: nat, d: nat): nat
    requires d > 0
  {
    (n + d - 1) / d
  }

  /** Sizes and block numbers that format computes. */
  datatype Layout =
    Layout(blocks: nat, inodes: nat, blockBitmap: nat, inodeBitmap: nat, inodeTable: nat, dataStart: nat)

  function LayoutFor(size: nat): Layout {
    var blocks := size / BLOCK;
    var inodes := if blocks / 4 < 1024 then 1024 else blocks / 4;
    var inodeBitmap := 2 + DivRoundUp(blocks, 8 * BLOCK);
    var inodeTable := inodeBitmap + DivRoundUp(inodes, 8 * BLOCK);
    Layout(blocks, inodes, 2, inodeBitmap, inodeTable, inodeTable + DivRoundUp(inodes * INODE_SIZE, BLOCK))
  }

  /** The regions come in order without overlap, hold a bit per block, a bit per inode and
      every inode, and leave the root block inside the device. */
  ghost predicate Sound(l: Layout, size: nat) {
    && l.blockBitmap == 2 && l.blockBitmap < l.inodeBitmap < l.inodeTable < l.dataStart
    && l.blocks <= (l.inodeBitmap - l.blockBitmap) * BLOCK * 8
    && l.inodes <= (l.inodeTable - l.inodeBitmap) * BLOCK * 8
    && l.inodes * INODE_SIZE <= (l.dataStart - l.inodeTable) * BLOCK
    && l.dataStart + 1 <= l.blocks && l.blocks * BLOCK <= size && 10 <= l.inodes <= l.blocks
  }

  /** Every accepted size gets a sound layout. */
  lemma LayoutIsSound(size: nat)
    requires size >= MIN_SIZE
    ensures Sound(LayoutFor(size), size)
  {
    var l := LayoutFor(size);
    RoundUpHolds(l.blocks, 8 * BLOCK);
    RoundUpHolds(l.inodes, 8 * BLOCK);
    RoundUpHolds(l.inodes * INODE_SIZE, BLOCK);
    SoundPlaces(l, size, DivRoundUp(l.blocks, 8 * BLOCK), DivRoundUp(l.inodes, 8 * BLOCK),
                DivRoundUp(l.inodes * INODE_SIZE, BLOCK));
  }

  lemma RoundUpHolds(n: nat, d: nat)
    requires d > 0
    ensures n <= DivRoundUp(n, d) * d < n + d
  {
    var m := n + d - 1;
    assert m == m / d * d + m % d;
  }

  lemma SoundPlaces(l: Layout, size: nat, a: nat, b: nat, c: nat)
    requires l.blocks >= 4096 && l.blocks * BLOCK <= size
    requires l.inodes >= 1024 && (l.inodes == 1024 || 4 * l.inodes <= l.blocks)
    requires l.blockBitmap == 2 && l.inodeBitmap == 2 + a && l.inodeTable == 2 + a + b && l.dataStart == 2 + a + b + c
    requires l.blocks <= a * (8 * BLOCK) < l.blocks + 8 * BLOCK
    requires l.inodes <= b * (8 * BLOCK) < l.inodes + 8 * BLOCK
    requires l.inodes * INODE_SIZE <= c * BLOCK < l.inodes * INODE_SIZE + BLOCK
    ensures Sound(l, size)
  {
  }

  // ----- Little-endian fields -----

  /** Byte `k` of `v`, the lowest first. */
  function ByteAt(v: nat, k: nat): nat
    decreases k
  {
    if k == 0 then v % 256 else ByteAt(v / 256, k - 1)
  }

  /** The number in the `n` bytes at `at`. */
  function Field(s: seq<nat>, at: nat, n: nat): nat
    requires at + n <= |s|
    decreases n, |s|
  {
    if n == 0 then 0 else s[at] + 256 * Field(s, at + 1, n - 1)
  }

  ghost predicate Stored(s: seq<nat>, at: nat, n: nat, v: nat) {
    at + n <= |s| && forall k | at <= k < at + n :: s[k] == ByteAt(v, k - at)
  }

  function Pow256(n: nat): nat { if n == 0 then 1 else 256 * Pow256(n - 1) }

  /** A field reads back as what was stored in it, if it fits. */
  lemma {:induction false} StoredReadsBack(s: seq<nat>, at: nat, n: nat, v: nat)
    requires Stored(s, at, n, v) && v < Pow256(n)
    ensures Field(s, at, n) == v
    decreases n
  {
    if n > 0 {
      assert v / 256 < Pow256(n - 1);
      StoredReadsBack(s, at + 1, n - 1, v / 256);
    }
  }

  lemma Pow256s()
    ensures Pow256(4) == 0x1_0000_0000 && Pow256(8) == U64
  {
  }

  // ----- Checksum -----

  /** A 64-bit word, bit 0 first. */
  type Word = seq<bool>

  function ZeroWord(): (w: Word)
    ensures |w| == 64
  {
    seq(64, i => false)
  }

  /** `(checksum << 1) ^ byte` */
  function Mix(c: Word, b: nat): (w: Word)
    requires |c| == 64
    ensures |w| == 64 && forall k | 0 <= k < 64 :: w[k] == ((k > 0 && c[k - 1]) != Bit(b, k))
  {
    seq(64, k requires 0 <= k < 64 => (k > 0 && c[k - 1]) != Bit(b, k))
  }

  /** The loop of `calculate_checksum`, started from `c`. */
  function Fold(c: Word, s: seq<nat>): (w: Word)
    requires |c| == 64
    ensures |w| == 64
    decreases |s|
  {
    if s == [] then c else Mix(Fold(c, s[..|s| - 1]), s[|s| - 1])
  }

  function Checksum(s: seq<nat>): (w: Word)
    ensures |w| == 64
  {
    Fold(ZeroWord(), s)
  }

  method CalculateChecksum(s: seq<nat>) returns (c: Word)
    ensures c == Checksum(s)
  {
    c := ZeroWord();
    for i := 0 to |s|
      invariant |c| == 64 && c == Fold(ZeroWord(), s[..i])
    {
      assert s[..i + 1][..i] == s[..i];
      c := Mix(c, s[i]);
    }
    assert s[..|s|] == s;
  }

  function WordValue(w: Word): nat {
    if w == [] then 0 else (if w[0] then 1 else 0) + 2 * WordValue(w[1..])
  }

  lemma {:induction false} FoldAppend(c: Word, s: seq<nat>, t: seq<nat>)
    requires |c| == 64
    ensures Fold(c, s + t) == Fold(Fold(c, s), t)
    decreases |t|
  {
    if t == [] {
      assert s + t == s;
    } else {
      assert (s + t)[..|s + t| - 1] == s + t[..|t| - 1];
      FoldAppend(c, s, t[..|t| - 1]);
    }
  }

  /** Bit `k` of the checksum has forgotten everything but the last `k + 1` bytes. */
  lemma {:induction false} BitForgets(c: Word, e: Word, s: seq<nat>, k: nat)
    requires |c| == 64 && |e| == 64 && k < 64 && k < |s|
    ensures Fold(c, s)[k] == Fold(e, s)[k]
    decreases k
  {
    if k > 0 { BitForgets(c, e, s[..|s| - 1], k - 1); }
  }

  /** Sixty-four shifts push everything earlier out of the 64-bit word: the checksum depends
      on the last 64 bytes only. */
  lemma ChecksumSeesLast64(s: seq<nat>, t: seq<nat>, tail: seq<nat>)
    requires |tail| >= 64
    ensures Checksum(s + tail) == Checksum(t + tail)
  {
    FoldAppend(ZeroWord(), s, tail);
    FoldAppend(ZeroWord(), t, tail);
    forall k | 0 <= k < 64 ensures Fold(Checksum(s), tail)[k] == Fold(Checksum(t), tail)[k] {
      BitForgets(Checksum(s), Checksum(t), tail, k);
    }
    assert Fold(Checksum(s), tail) == Fold(Checksum(t), tail);
  }

  /** Exactly which bits a byte reaches: bit `b` of a byte with `d` bytes after it shows in
      bit `b + d` of the checksum, and nowhere else. */
  lemma {:induction false} BitSeen(c: Word, s: seq<nat>, i: nat, y: nat, k: nat)
    requires |c| == 64 && i < |s| && k < 64
    ensures var d := |s| - 1 - i;
            Fold(c, s)[k] != Fold(c, s[i := y])[k] <==> k >= d && Bit(s[i], k - d) != Bit(y, k - d)
    decreases |s|
  {
    var n, t := |s| - 1, s[i := y];
    if i == n {
      assert t[..n] == s[..n];
    } else {
      assert t[..n] == s[..n][i := y];
      if k > 0 { BitSeen(c, s[..n], i, y, k - 1); }
    }
  }

  /** The bytes differ in a bit that fits the 64-bit word after `d` more shifts. */
  ghost predicate DifferWithin(x: nat, y: nat, d: nat) {
    exists b: nat :: b + d < 64 && Bit(x, b) != Bit(y, b)
  }

  /** So changing one byte changes the checksum exactly when the old and the new byte differ
      in a bit that survives the shifts that follow. */
  lemma ChangeSeenExactly(s: seq<nat>, i: nat, y: nat)
    requires i < |s|
    ensures Checksum(s) != Checksum(s[i := y]) <==> DifferWithin(s[i], y, |s| - 1 - i)
  {
    var d, before, after := |s| - 1 - i, Checksum(s), Checksum(s[i := y]);
    if DifferWithin(s[i], y, d) {
      var b: nat :| b + d < 64 && Bit(s[i], b) != Bit(y, b);
      BitSeen(ZeroWord(), s, i, y, b + d);
      assert before[b + d] != after[b + d];
    } else {
      forall k | 0 <= k < 64 ensures before[k] == after[k] {
        BitSeen(ZeroWord(), s, i, y, k);
        if k >= d {
          var b: nat := k - d;
          assert b + d < 64;
        }
      }
      assert before == after;
    }
  }

  lemma {:induction false} DifferInABit(x: nat, y: nat, n: nat)
    requires x != y && x < Pow2(n) && y < Pow2(n)
    ensures exists b: nat :: b < n && Bit(x, b) != Bit(y, b)
    decreases n
  {
    if x % 2 != y % 2 {
      assert Bit(x, 0) != Bit(y, 0);
    } else {
      DifferInABit(x / 2, y / 2, n - 1);
      var b: nat :| b < n - 1 && Bit(x / 2, b) != Bit(y / 2, b);
      assert Bit(x, b + 1) != Bit(y, b + 1);
    }
  }

  /** Every change of one of the last 57 bytes is seen, none of a byte before the last 64. */
  lemma CoverageOfOneByte(s: seq<nat>, i: nat, y: nat)
    requires i < |s| && s[i] < 256 && y < 256 && y != s[i]
    ensures |s| - i <= 57 ==> Checksum(s) != Checksum(s[i := y])
    ensures |s| - i > 64 ==> Checksum(s) == Checksum(s[i := y])
  {
    ChangeSeenExactly(s, i, y);
    assert Pow2(8) == 256 by { assert Pow2(4) == 16; }
    DifferInABit(s[i], y, 8);
    var b: nat :| b < 8 && Bit(s[i], b) != Bit(y, b);
    if |s| - i <= 57 { assert b + (|s| - 1 - i) < 64; }
  }

  // ----- Structures -----

  /** The eight 64-bit fields from `block_count` to `data_start`. */
  function Counts(l: Layout): (s: seq<nat>)
    requires l.dataStart + 1 <= l.blocks && 10 <= l.inodes
    ensures |s| == 8
  {
    [l.blocks, l.inodes, l.blocks - l.dataStart - 1, l.inodes - 10,
     l.blockBitmap, l.inodeBitmap, l.inodeTable, l.dataStart]
  }

  function Sealed(head: seq<nat>): (s: seq<nat>)
    ensures |s| == |head| + 8 && s[..|head|] == head
  {
    var sum := WordValue(Checksum(head));
    head + seq(8, k requires 0 <= k => ByteAt(sum, k))
  }

  function HeadByte(counts: seq<nat>, k: nat): nat
    requires |counts| == 8
  {
    if k < 4 then ByteAt(MAGIC, k)
    else if k < 8 then ByteAt(1, k - 4)
    else if 16 <= k < 80 then ByteAt(counts[(k - 16) / 8], (k - 16) % 8)
    else 0
  }

  /** All of the superblock but its checksum: magic number, version 1.0, padding, the eight
      64-bit fields, zeros. */
  function Head(counts: seq<nat>): (s: seq<nat>)
    requires |counts| == 8
    ensures |s| == SUMMED
  {
    seq(SUMMED, k requires 0 <= k => HeadByte(counts, k))
  }

  /** The superblock that format writes. */
  function Superblock(counts: seq<nat>): (s: seq<nat>)
    requires |counts| == 8
    ensures |s| == SB_SIZE && s == Sealed(s[..SUMMED])
  {
    Sealed(Head(counts))
  }

  function MagicOf(sb: seq<nat>): nat
    requires |sb| == SB_SIZE
  {
    Field(sb, 0, 4)
  }

  /** The `i`-th of the eight 64-bit fields. */
  function CountOf(sb: seq<nat>, i: nat): nat
    requires |sb| == SB_SIZE && i < 8
  {
    Field(sb, 16 + 8 * i, 8)
  }

  function TableStartOf(sb: seq<nat>): nat
    requires |sb| == SB_SIZE
  {
    CountOf(sb, 6)
  }

  function InodeByte(dataStart: nat, k: nat): nat {
    if k < 4 then ByteAt(8685, k)
    else if 12 <= k < 16 then ByteAt(BLOCK, k - 12)
    else if 32 <= k < 36 then ByteAt(1, k - 32)
    else if 36 <= k < 40 then ByteAt(dataStart % 0x1_0000_0000, k - 36)
    else 0
  }

  /** The root inode: a directory of one block, the first data block as a u32. */
  function RootInode(dataStart: nat): (s: seq<nat>)
    ensures |s| == INODE_SIZE
  {
    seq(INODE_SIZE, k requires 0 <= k => InodeByte(dataStart, k))
  }

  function SizeOf(inode: seq<nat>): nat
    requires |inode| == INODE_SIZE
  {
    Field(inode, 12, 4)
  }

  function BlockOf(inode: seq<nat>): nat
    requires |inode| == INODE_SIZE
  {
    Field(inode, 36, 4)
  }

  /** What mount finds in a fresh superblock: the magic number and all eight counts. */
  lemma SuperblockReadsBack(counts: seq<nat>, i: nat)
    requires |counts| == 8 && i < 8 && counts[i] < U64
    ensures MagicOf(Superblock(counts)) == MAGIC && CountOf(Superblock(counts), i) == counts[i]
  {
    var head, sb := Head(counts), Superblock(counts);
    Pow256s();
    assert Stored(sb, 0, 4, MAGIC);
    StoredReadsBack(sb, 0, 4, MAGIC);
    assert Stored(sb, 16 + 8 * i, 8, counts[i]) by {
      forall k | 16 + 8 * i <= k < 24 + 8 * i ensures sb[k] == ByteAt(counts[i], k - (16 + 8 * i)) {
        assert sb[k] == head[k] && (k - 16) / 8 == i && (k - 16) % 8 == k - (16 + 8 * i);
      }
    }
    StoredReadsBack(sb, 16 + 8 * i, 8, counts[i]);
  }

  /** The magic number, a right checksum, and in all eight fields what the layout says;
      `data_start + 1 + free_blocks == block_count`. */
  ghost predicate Describes(sb: seq<nat>, l: Layout) {
    && |sb| == SB_SIZE && MagicOf(sb) == MAGIC && sb == Sealed(sb[..SUMMED])
    && CountOf(sb, 0) == l.blocks && CountOf(sb, 1) == l.inodes
    && l.dataStart + 1 + CountOf(sb, 2) == l.blocks && 10 + CountOf(sb, 3) == l.inodes
    && CountOf(sb, 4) == l.blockBitmap && CountOf(sb, 5) == l.inodeBitmap
    && TableStartOf(sb) == l.inodeTable && CountOf(sb, 7) == l.dataStart
  }

  lemma SuperblockDescribes(l: Layout, size: nat)
    requires Sound(l, size) && size < U64
    ensures Describes(Superblock(Counts(l)), l)
  {
    var counts := Counts(l);
    forall i | 0 <= i < 8 ensures MagicOf(Superblock(counts)) == MAGIC && CountOf(Superblock(counts), i) == counts[i] {
      SuperblockReadsBack(counts, i);
    }
    CountsDescribe(Superblock(counts), l);
  }

  lemma CountsDescribe(sb: seq<nat>, l: Layout)
    requires |sb| == SB_SIZE && MagicOf(sb) == MAGIC && sb == Sealed(sb[..SUMMED])
    requires l.dataStart + 1 <= l.blocks && 10 <= l.inodes
    requires forall i | 0 <= i < 8 :: CountOf(sb, i) == Counts(l)[i]
    ensures Describes(sb, l)
  {
  }

  /** What open and read find in a fresh root inode. */
  lemma InodeReadsBack(dataStart: nat)
    ensures SizeOf(RootInode(dataStart)) == BLOCK && BlockOf(RootInode(dataStart)) == dataStart % 0x1_0000_0000
  {
    var at, ino := dataStart % 0x1_0000_0000, RootInode(dataStart);
    Pow256s();
    StoredReadsBack(ino, 12, 4, BLOCK);
    StoredReadsBack(ino, 36, 4, at);
  }
}

/** Formatting, mounting and reading (filesystem/src/jarfs.c). Block device reads and writes
    succeed in full. */
module Jarfs {
  import opened Arith
  import opened JarfsLayout
  import opened Options

  datatype Status = Ok | Inval

  function WriteAt(data: seq<nat>, offset: nat, bytes: seq<nat>): (r: seq<nat>)
    requires offset + |bytes| <= |data|
    ensures |r| == |data| && r[offset..offset + |bytes|] == bytes
    ensures forall k | 0 <= k < offset || offset + |bytes| <= k < |data| :: r[k] == data[k]
  {
    data[..offset] + bytes + data[offset + |bytes|..]
  }

  /** A read that does not lie on the device fails and leaves the caller's memory alone. */
  function ReadOr(data: seq<nat>, offset: nat, size: nat, memory: seq<nat>): (r: seq<nat>)
    ensures |memory| == size ==> |r| == size
  {
    if offset + size <= |data| then data[offset..offset + size] else memory
  }

  class Device {
    var data: seq<nat>

    constructor (data: seq<nat>)
      ensures this.data == data
    {
      this.data := data;
    }

    method Write(offset: nat, bytes: seq<nat>)
      requires offset + |bytes| <= |data|
      modifies this
      ensures data == WriteAt(old(data), offset, bytes)
    {
      data := WriteAt(data, offset, bytes);
    }
  }

  /** Two structures written: one at byte 0, one at byte `table`. */
  function Image(data: seq<nat>, sb: seq<nat>, table: nat, ino: seq<nat>): (r: seq<nat>)
    requires |sb| <= |data| && table + |ino| <= |data|
    ensures |r| == |data|
  {
    WriteAt(WriteAt(data, 0, sb), table, ino)
  }

  method Format(device: Device?, size: nat) returns (r: Status)
    requires device != null && size >= MIN_SIZE ==> size <= |device.data|
    modifies device
    ensures r == Ok <==> device != null && size >= 16777216
    ensures r == Ok ==>
              var l := LayoutFor(size);
              && Sound(l, size)
              && device.data
                 == Image(old(device.data), Superblock(Counts(l)), l.inodeTable * BLOCK, RootInode(l.dataStart))
    ensures r == Inval && device != null ==> device.data == old(device.data)
  {
    if device == null || size < MIN_SIZE { return Inval; }
    var l := LayoutFor(size);
    LayoutIsSound(size);
    var head := Head(Counts(l));
    var sum := CalculateChecksum(head);
    var seal := WordValue(sum);
    device.Write(0, head + seq(8, k requires 0 <= k => ByteAt(seal, k)));
    device.Write(l.inodeTable * BLOCK, RootInode(l.dataStart));
    return Ok;
  }

  lemma Untouched(data: seq<nat>, offset: nat, bytes: seq<nat>, lo: nat, hi: nat)
    requires offset + |bytes| <= |data| && lo <= hi <= |data| && (hi <= offset || offset + |bytes| <= lo)
    ensures WriteAt(data, offset, bytes)[lo..hi] == data[lo..hi]
  {
    var r := WriteAt(data, offset, bytes);
    forall k | lo <= k < hi ensures r[k] == data[k] {}
  }

  /** Nothing else is touched, and both structures read back. */
  lemma ImageReads(data: seq<nat>, sb: seq<nat>, table: nat, ino: seq<nat>, root: nat)
    requires |sb| <= table && table + |ino| <= root && root + BLOCK <= |data|
    ensures var r := Image(data, sb, table, ino);
            && r[0..|sb|] == sb && r[table..table + |ino|] == ino
            && r[root..root + BLOCK] == data[root..root + BLOCK]
  {
    var first := WriteAt(data, 0, sb);
    Untouched(data, 0, sb, root, root + BLOCK);
    Untouched(first, table, ino, 0, |sb|);
    Untouched(first, table, ino, root, root + BLOCK);
  }

  /** How many bytes `jarfs_read` sets out to copy, in 64-bit arithmetic. */
  function Wanted(position: nat, size: nat, count: nat): nat {
    if (position + count) % U64 > size then (size - position) % U64 else count
  }

  /** Within the file that is what is left of it when it is less than `count`, and in a file of
      one block the copy stays in the buffer. */
  lemma WantedIsLeft(position: nat, size: nat, count: nat)
    requires position <= size < U64 && position + count < U64
    ensures var n := Wanted(position, size, count);
            && n == Min(count, size - position) && (position + n) % U64 == position + n
            && (size <= BLOCK && n > 0 ==> position % BLOCK + n <= BLOCK)
  {
  }

  class File {
    var device: Device
    var inode: seq<nat>
    var position: nat

    constructor (device: Device, inode: seq<nat>, position: nat)
      ensures this.device == device && this.inode == inode && this.position == position
    {
      this.device, this.inode, this.position := device, inode, position;
    }

    /** A position inside a file whose first block lies on the device. */
    ghost predicate Readable()
      reads this, device
    {
      && |inode| == INODE_SIZE && position <= SizeOf(inode) < U64
      && BlockOf(inode) * BLOCK + BLOCK <= |device.data|
    }

    /** The first block, or `memory` if it does not lie on the device. */
    function Block(memory: seq<nat>): (b: seq<nat>)
      requires |inode| == INODE_SIZE && |memory| == BLOCK
      reads this, device
      ensures |b| == BLOCK
    {
      ReadOr(device.data, BlockOf(inode) * BLOCK, BLOCK, memory)
    }

    /** `memory` is what the block buffer holds before the read, whose result is not looked at.
        The bytes always come out of the first block. None is undefined behaviour: exactly
        when the copy would leave the one-block buffer. */
    method Read(count: nat, memory: seq<nat>) returns (r: Option<seq<nat>>)
      requires |inode| == INODE_SIZE && |memory| == BLOCK && position < U64 && count < U64
      modifies this`position
      ensures var n, at := Wanted(old(position), SizeOf(inode), count), old(position) % BLOCK;
              && (r.None? <==> n > 0 && at + n > BLOCK)
              && (r.None? ==> position == old(position))
              && (r.Some? ==> position == (old(position) + n) % U64 && r.value == Block(memory)[at..at + n])
    {
      var n := count;
      if (position + n) % U64 > SizeOf(inode) { n := (SizeOf(inode) - position) % U64; }
      if n == 0 { return Some([]); }
      var block := BlockOf(inode);
      var temp := ReadOr(device.data, block * BLOCK, BLOCK, memory);
      if position % BLOCK + n > BLOCK { return None; }
      r := Some(temp[position % BLOCK..position % BLOCK + n]);
      position := (position + n) % U64;
    }

    /** A read inside the file: as many bytes as asked for or left, each from its place in the
        first block. It is defined at least in files of one block. */
    method ReadInside(count: nat) returns (r: Option<seq<nat>>)
      requires Readable() && position + count < U64
      modifies this`position
      ensures Readable() && (SizeOf(inode) <= BLOCK ==> r.Some?)
      ensures r.Some? ==> |r.value| == Min(count, SizeOf(inode) - old(position))
      ensures r.Some? ==> position == old(position) + |r.value|
      ensures r.Some? ==>
                forall k | 0 <= k < |r.value| :: r.value[k] == Block(Blank())[(old(position) + k) % BLOCK]
    {
      ghost var was := position;
      WantedIsLeft(was, SizeOf(inode), count);
      r := Read(count, Blank());
      if r.Some? && r.value != [] { InPlace(Block(Blank()), was, r.value); }
    }

    /** Any sequence of reads from any position in a file, as long as it is defined, as it
        always is in a file of at most one block: the bytes follow one another, and after the
        end there is nothing. */
    method ReadAll(counts: seq<nat>) returns (out: Option<seq<nat>>)
      requires Readable() && forall c <- counts :: c + SizeOf(inode) < U64
      modifies this`position
      ensures SizeOf(inode) <= BLOCK ==> out.Some?
      ensures out.Some? ==>
                && position == Min(old(position) + Sum(counts), SizeOf(inode))
                && |out.value| == position - old(position)
                && forall i | 0 <= i < |out.value| :: out.value[i] == Block(Blank())[(old(position) + i) % BLOCK]
    {
      var got, start := [], position;
      for i := 0 to |counts|
        invariant Readable() && position == Min(start + Sum(counts[..i]), SizeOf(inode)) && |got| == position - start
        invariant forall k | 0 <= k < |got| :: got[k] == Block(Blank())[(start + k) % BLOCK]
      {
        assert counts[..i + 1][..i] == counts[..i] && counts[i] in counts;
        var r := ReadInside(counts[i]);
        if r.None? { return None; }
        got := got + r.value;
      }
      assert counts[..|counts|] == counts;
      out := Some(got);
    }
  }

  function Blank(): (s: seq<nat>)
    ensures |s| == BLOCK
  {
    seq(BLOCK, i => 0)
  }

  lemma InPlace(block: seq<nat>, p: nat, piece: seq<nat>)
    requires |block| == BLOCK && p % BLOCK + |piece| <= BLOCK && piece == block[p % BLOCK..p % BLOCK + |piece|]
    ensures forall k | 0 <= k < |piece| :: piece[k] == block[(p + k) % BLOCK]
  {
    forall k | 0 <= k < |piece| ensures piece[k] == block[(p + k) % BLOCK] { Offset(p, k); }
  }

  lemma Offset(p: nat, k: nat)
    requires p % BLOCK + k < BLOCK
    ensures (p + k) % BLOCK == p % BLOCK + k
  {
  }

  lemma InBlock(p: nat)
    requires p <= BLOCK
    ensures p % BLOCK == if p < BLOCK then p else 0
  {
  }

  function Sum(s: seq<nat>): nat { if s == [] then 0 else Sum(s[..|s| - 1]) + s[|s| - 1] }

  class Mount {
    var device: Device
    var superblock: seq<nat>
    var root: File?

    constructor (device: Device, superblock: seq<nat>)
      ensures this.device == device && this.superblock == superblock && root == null
    {
      this.device, this.superblock, root := device, superblock, null;
    }

    /** `jarfs_open` always opens the root inode, does not look at the result of its read,
        and leaves `position` as kmalloc found it; `junk` and `memory` are what was there. */
    method Open(heap: bool, junk: nat, memory: seq<nat>) returns (file: File?)
      requires |superblock| == SB_SIZE && |memory| == INODE_SIZE
      ensures file == null <==> !heap
      ensures file != null ==> fresh(file) && file.device == device && file.position == junk
      ensures file != null ==> |file.inode| == INODE_SIZE
      ensures file != null ==> file.inode == ReadOr(device.data, TableStartOf(superblock) * BLOCK, INODE_SIZE, memory)
    {
      if !heap { return null; }
      var offset := TableStartOf(superblock) * BLOCK;
      file := new File(device, ReadOr(device.data, offset, INODE_SIZE, memory), junk);
    }

    /** `jarfs_sync` */
    method Sync()
      requires |superblock| == SB_SIZE <= |device.data|
      modifies this`superblock, device
      ensures superblock == Sealed(old(superblock)[..SUMMED])
      ensures device.data == WriteAt(old(device.data), 0, superblock)
    {
      var sum := CalculateChecksum(superblock[..SUMMED]);
      var seal := WordValue(sum);
      superblock := superblock[..SUMMED] + seq(8, k requires 0 <= k => ByteAt(seal, k));
      device.Write(0, superblock);
    }
  }

  /** `jarfs_mount`: no field but the magic number is looked at. `heap` and `heapFile` say
      whether kmalloc succeeds for the mount and for its root file. */
  method MountDevice(device: Device?, heap: bool, heapFile: bool, junk: nat, memory: seq<nat>) returns (m: Mount?)
    requires |memory| == INODE_SIZE
    ensures m != null
            <==> device != null && heap && SB_SIZE <= |device.data| && MagicOf(device.data[0..SB_SIZE]) == MAGIC
    ensures m != null ==> fresh(m) && m.device == device && m.superblock == device.data[0..SB_SIZE]
    ensures m != null ==> (m.root != null <==> heapFile)
    ensures m != null && m.root != null ==>
              && fresh(m.root) && m.root.device == device && m.root.position == junk
              && m.root.inode == ReadOr(device.data, TableStartOf(m.superblock) * BLOCK, INODE_SIZE, memory)
  {
    if device == null || !heap { return null; }
    if |device.data| < SB_SIZE { return null; }
    var sb := device.data[0..SB_SIZE];
    if MagicOf(sb) != MAGIC { return null; }
    m := new Mount(device, sb);
    var root := m.Open(heapFile, junk, memory);
    m.root := root;
  }

  /** The disk holds this superblock, with a right checksum, and this root inode. */
  ghost predicate Holds(disk: seq<nat>, sb: seq<nat>, table: nat, ino: seq<nat>, root: nat) {
    && |sb| == SB_SIZE <= |disk| && disk[0..SB_SIZE] == sb && sb == Sealed(sb[..SUMMED])
    && MagicOf(sb) == MAGIC && TableStartOf(sb) * BLOCK == table
    && |ino| == INODE_SIZE && table + INODE_SIZE <= |disk| && disk[table..table + INODE_SIZE] == ino
    && SizeOf(ino) == BLOCK && BlockOf(ino) * BLOCK == root && root + BLOCK <= |disk|
  }

  /** Mount, read the root in any pieces, sync: the bytes read are those of the root block
      from the position that the new file was given, and sync writes back exactly what is on
      the disk. Without memory for the mount or its root file nothing is read. */
  method Session(device: Device, counts: seq<nat>, heap: bool, heapFile: bool, junk: nat,
                 ghost sb: seq<nat>, ghost table: nat, ghost ino: seq<nat>, ghost root: nat) returns (out: seq<nat>)
    requires Holds(device.data, sb, table, ino, root) && junk <= BLOCK
    requires forall c <- counts :: c + BLOCK < U64
    modifies device
    ensures device.data == old(device.data)
    ensures out == if heap && heapFile then device.data[root + junk..root + End(junk, counts)] else []
  {
    out := [];
    var m := MountDevice(device, heap, heapFile, junk, seq(INODE_SIZE, i => 0));
    if m == null { return; }
    if m.root != null {
      var r := m.root.ReadAll(counts);
      out := r.value;
      Consecutive(device.data, root, junk, out, m.root.Block(Blank()));
    }
    m.Sync();
    Rewrite(old(device.data), sb);
  }

  lemma Consecutive(data: seq<nat>, root: nat, start: nat, out: seq<nat>, block: seq<nat>)
    requires root + BLOCK <= |data| && block == data[root..root + BLOCK] && start + |out| <= BLOCK
    requires forall i | 0 <= i < |out| :: out[i] == block[(start + i) % BLOCK]
    ensures out == data[root + start..root + start + |out|]
  {
    forall i | 0 <= i < |out| ensures out[i] == data[root + start + i] { InBlock(start + i); }
  }

  /** How far reads of these sizes get from `start` in a file of one block. */
  function End(start: nat, counts: seq<nat>): (r: nat)
    requires start <= BLOCK
    ensures start <= r <= BLOCK
  {
    Min(start + Sum(counts), BLOCK)
  }

  /** A formatted disk holds what a session needs exactly when the first data block's number
      fits the 32 bits of an inode's block pointer; the root block's bytes are as before. */
  lemma FormattedHolds(data: seq<nat>, size: nat, l: Layout, sb: seq<nat>, table: nat, ino: seq<nat>, root: nat)
    requires Sound(l, size) && size <= |data| && Describes(sb, l)
    requires table == l.inodeTable * BLOCK && root == l.dataStart * BLOCK
    requires |ino| == INODE_SIZE && SizeOf(ino) == BLOCK && BlockOf(ino) == l.dataStart % 0x1_0000_0000
    ensures var disk := Image(data, sb, table, ino);
            && (Holds(disk, sb, table, ino, root) <==> l.dataStart < 0x1_0000_0000)
            && disk[root..root + BLOCK] == data[root..root + BLOCK]
  {
    ImageHolds(data, sb, table, ino, root);
  }

  /** The same of what format writes, with `at` the place that the inode's pointer gives. */
  lemma FreshDiskHolds(data: seq<nat>, size: nat, l: Layout,
                       sb: seq<nat>, table: nat, ino: seq<nat>, root: nat, at: nat)
    requires Sound(l, size) && size <= |data| && size < U64
    requires sb == Superblock(Counts(l)) && table == l.inodeTable * BLOCK && ino == RootInode(l.dataStart)
    requires root == l.dataStart * BLOCK && at == l.dataStart % 0x1_0000_0000 * BLOCK
    ensures var disk := Image(data, sb, table, ino);
            && Holds(disk, sb, table, ino, at) && (at == root <==> l.dataStart < 0x1_0000_0000)
            && disk[root..root + BLOCK] == data[root..root + BLOCK]
  {
    SuperblockDescribes(l, size);
    InodeReadsBack(l.dataStart);
    FormattedHolds(data, size, l, sb, table, ino, root);
    ImageHoldsAt(data, sb, table, ino, root, at);
  }

  lemma ImageHoldsAt(data: seq<nat>, sb: seq<nat>, table: nat, ino: seq<nat>, root: nat, at: nat)
    requires |sb| == SB_SIZE <= table && |ino| == INODE_SIZE && table + INODE_SIZE <= root && root + BLOCK <= |data|
    requires sb == Sealed(sb[..SUMMED]) && MagicOf(sb) == MAGIC && TableStartOf(sb) * BLOCK == table
    requires SizeOf(ino) == BLOCK
    requires BlockOf(ino) * BLOCK == at && at + BLOCK <= |data|
    ensures Holds(Image(data, sb, table, ino), sb, table, ino, at)
  {
    ImageReads(data, sb, table, ino, root);
  }

  lemma ImageHolds(data: seq<nat>, sb: seq<nat>, table: nat, ino: seq<nat>, root: nat)
    requires |sb| == SB_SIZE <= table && |ino| == INODE_SIZE && table + INODE_SIZE <= root && root + BLOCK <= |data|
    requires sb == Sealed(sb[..SUMMED]) && MagicOf(sb) == MAGIC && TableStartOf(sb) * BLOCK == table
    requires SizeOf(ino) == BLOCK
    ensures var disk := Image(data, sb, table, ino);
            && (Holds(disk, sb, table, ino, root) <==> BlockOf(ino) * BLOCK == root)
            && disk[root..root + BLOCK] == data[root..root + BLOCK]
  {
    ImageReads(data, sb, table, ino, root);
  }

  /** What a session reads on a disk with layout `l`: from the initial position on, the block
      whose number is what an inode can hold of `data_start`. Where `data_start` fits 32 bits
      that is the root block, with what it held in `before`. Without memory it is nothing. */
  ghost predicate RootRead(out: seq<nat>, l: Layout, disk: seq<nat>, before: seq<nat>,
                           counts: seq<nat>, heap: bool, junk: nat)
    requires junk <= BLOCK
  {
    var at, root := l.dataStart % 0x1_0000_0000 * BLOCK, l.dataStart * BLOCK;
    && at + BLOCK <= |disk| && root + BLOCK <= |before|
    && out == (if heap then disk[at + junk..at + End(junk, counts)] else [])
    && (l.dataStart < 0x1_0000_0000 && heap ==> out == before[root + junk..root + End(junk, counts)])
  }

  /** A session on a freshly formatted disk. */
  method UseFormatted(device: Device, counts: seq<nat>, heap: bool, heapFile: bool, junk: nat,
                      ghost data: seq<nat>, ghost size: nat, ghost l: Layout) returns (out: seq<nat>)
    requires Sound(l, size) && size <= |data| && size < U64 && junk <= BLOCK
    requires device.data == Image(data, Superblock(Counts(l)), l.inodeTable * BLOCK, RootInode(l.dataStart))
    requires forall c <- counts :: c + BLOCK < U64
    modifies device
    ensures device.data == old(device.data)
    ensures RootRead(out, l, device.data, data, counts, heap && heapFile, junk)
  {
    ghost var sb, table, ino := Superblock(Counts(l)), l.inodeTable * BLOCK, RootInode(l.dataStart);
    ghost var root, at := l.dataStart * BLOCK, l.dataStart % 0x1_0000_0000 * BLOCK;
    FreshDiskHolds(data, size, l, sb, table, ino, root, at);
    out := Session(device, counts, heap, heapFile, junk, sb, table, ino, at);
    ReadIsRootRead(out, l, device.data, data, counts, heap && heapFile, junk, at, root);
  }

  lemma ReadIsRootRead(out: seq<nat>, l: Layout, disk: seq<nat>, before: seq<nat>, counts: seq<nat>,
                       heap: bool, junk: nat, at: nat, root: nat)
    requires junk <= BLOCK && at == l.dataStart % 0x1_0000_0000 * BLOCK && root == l.dataStart * BLOCK
    requires at + BLOCK <= |disk| && root + BLOCK <= |before| == |disk|
    requires disk[root..root + BLOCK] == before[root..root + BLOCK]
    requires out == if heap then disk[at + junk..at + End(junk, counts)] else []
    ensures RootRead(out, l, disk, before, counts, heap, junk)
  {
    if at == root { SamePart(disk, before, root, root + BLOCK, junk, End(junk, counts)); }
  }

  /** Format, mount, read the root in any pieces and sync: the disk ends up as format left it. */
  method FormatAndUse(device: Device, size: nat, counts: seq<nat>, heap: bool, heapFile: bool, junk: nat)
    returns (out: seq<nat>)
    requires MIN_SIZE <= size <= |device.data| && size < U64 && junk <= BLOCK
    requires forall c <- counts :: c + BLOCK < U64
    modifies device
    ensures var l := LayoutFor(size);
            && Sound(l, size)
            && device.data
               == Image(old(device.data), Superblock(Counts(l)), l.inodeTable * BLOCK, RootInode(l.dataStart))
            && RootRead(out, l, device.data, old(device.data), counts, heap && heapFile, junk)
  {
    ghost var data := device.data;
    var r := Format(device, size);
    out := UseFormatted(device, counts, heap, heapFile, junk, data, size, LayoutFor(size));
  }

  lemma SamePart(s: seq<nat>, t: seq<nat>, lo: nat, hi: nat, a: nat, b: nat)
    requires a <= b && lo + b <= hi <= |s| == |t| && s[lo..hi] == t[lo..hi]
    ensures s[lo + a..lo + b] == t[lo + a..lo + b]
  {
    forall i | lo + a <= i < lo + b ensures s[i] == t[i] {
      assert s[lo..hi][i - lo] == s[i] && t[lo..hi][i - lo] == t[i];
    }
  }

  lemma Rewrite(data: seq<nat>, bytes: seq<nat>)
    requires |bytes| <= |data| && data[0..|bytes|] == bytes
    ensures WriteAt(data, 0, bytes) == data
  {
    assert data == data[0..|bytes|] + data[|bytes|..];
  }
}
