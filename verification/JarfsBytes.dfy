/** The bytes that JARFS leaves on disk (filesystem/src/jarfs.c), at the offsets of the x86-64
    ABI and with their values written out. */
module JarfsBytes {
  import opened Bits
  import opened JarfsLayout

  // ----- The stored checksum -----

  lemma {:induction false} WordBits(w: Word, k: nat)
    requires k < |w|
    ensures Bit(WordValue(w), k) <==> w[k]
    decreases |w|
  {
    if k > 0 { WordBits(w[1..], k - 1); }
  }

  lemma {:induction false} WordFits(w: Word)
    ensures WordValue(w) < Pow2(|w|)
    decreases |w|
  {
    if w != [] { WordFits(w[1..]); }
  }

  lemma Pow2At64()
    ensures Pow2(64) == U64
  {
    Pow2At40();
    assert Pow2(56) == 0x100_0000_0000_0000; assert Pow2(60) == 0x1000_0000_0000_0000;
  }

  lemma WordIs64Bit(w: Word)
    requires |w| == 64
    ensures WordValue(w) < Pow256(8) == U64
  {
    WordFits(w);
    Pow2At64();
    Pow256s();
  }

  lemma SealReadsBack(head: seq<nat>, sealed: seq<nat>, sum: nat)
    requires sealed == Sealed(head) && sum == WordValue(Checksum(head))
    ensures Field(sealed, |head|, 8) == sum < U64
  {
    WordIs64Bit(Checksum(head));
    assert Stored(sealed, |head|, 8, sum);
    StoredReadsBack(sealed, |head|, 8, sum);
  }

  /** The last eight bytes of a sealed structure are, bit by bit, the checksum of the rest. */
  lemma StoredChecksum(head: seq<nat>)
    ensures Field(Sealed(head), |head|, 8) < U64
    ensures forall k: nat | k < 64 :: Bit(Field(Sealed(head), |head|, 8), k) <==> Checksum(head)[k]
  {
    SealReadsBack(head, Sealed(head), WordValue(Checksum(head)));
    forall k: nat | k < 64 ensures Bit(WordValue(Checksum(head)), k) <==> Checksum(head)[k] {
      WordBits(Checksum(head), k);
    }
  }

  lemma {:induction false} SameField(s: seq<nat>, t: seq<nat>, at: nat, n: nat)
    requires at + n <= |s| && at + n <= |t| && forall k | at <= k < at + n :: s[k] == t[k]
    ensures Field(s, at, n) == Field(t, at, n)
    decreases n
  {
    if n > 0 { SameField(s, t, at + 1, n - 1); }
  }

  /** A change of one of the last 57 bytes shows in the stored checksum, a change of a byte
      before the last 64 does not. */
  lemma StoredCoverage(head: seq<nat>, i: nat, y: nat)
    requires i < |head| && head[i] < 256 && y < 256 && y != head[i]
    ensures |head| - i <= 57 ==> Sealed(head)[|head|..] != Sealed(head[i := y])[|head|..]
    ensures |head| - i > 64 ==> Sealed(head)[|head|..] == Sealed(head[i := y])[|head|..]
  {
    var n, other := |head|, head[i := y];
    CoverageOfOneByte(head, i, y);
    if n - i <= 57 {
      var k :| 0 <= k < 64 && Checksum(head)[k] != Checksum(other)[k];
      StoredChecksum(head);
      StoredChecksum(other);
      if Sealed(head)[n..] == Sealed(other)[n..] { SameTail(Sealed(head), Sealed(other), n); }
    }
  }

  lemma SameTail(s: seq<nat>, t: seq<nat>, n: nat)
    requires |s| == |t| == n + 8 && s[n..] == t[n..]
    ensures Field(s, n, 8) == Field(t, n, 8)
  {
    forall k | n <= k < n + 8 ensures s[k] == t[k] { assert s[n..][k - n] == s[k] && t[n..][k - n] == t[k]; }
    SameField(s, t, n, 8);
  }

  /** The checksum of zero bytes is zero; with the effect of each single byte this fixes every
      checksum. */
  lemma {:induction false} ChecksumOfZeros(s: seq<nat>, k: nat)
    requires k < 64 && forall i | 0 <= i < |s| :: s[i] == 0
    ensures !Checksum(s)[k]
    decreases |s|
  {
    if s != [] {
      ZeroBit(k);
      if k > 0 { ChecksumOfZeros(s[..|s| - 1], k - 1); }
    }
  }

  // ----- The structures -----

  lemma MagicBytes(counts: seq<nat>)
    requires |counts| == 8
    ensures Superblock(counts)[..4] == [0x56, 0x52, 0x41, 0x4A]
  {
    var head, sb := Head(counts), Superblock(counts);
    assert sb[..4] == head[..4];
    assert head[0] == ByteAt(MAGIC, 0) && head[1] == ByteAt(MAGIC, 1);
    assert head[2] == ByteAt(MAGIC, 2) && head[3] == ByteAt(MAGIC, 3);
  }

  /** Magic number, version 1.0, padding, block and inode counts, free counts, the four region
      starts, and zeros up to the checksum at byte 112. */
  lemma SuperblockBytes(l: Layout, size: nat)
    requires Sound(l, size) && size < U64
    ensures var sb := Superblock(Counts(l));
            && |sb| == 120 && Field(sb, 0, 4) == 0x4A415256 && Field(sb, 4, 4) == 1 && Field(sb, 8, 4) == 0
            && Field(sb, 16, 8) == l.blocks && Field(sb, 24, 8) == l.inodes
            && Field(sb, 32, 8) == l.blocks - l.dataStart - 1 && Field(sb, 40, 8) == l.inodes - 10
            && Field(sb, 48, 8) == 2 && Field(sb, 56, 8) == l.inodeBitmap
            && Field(sb, 64, 8) == l.inodeTable && Field(sb, 72, 8) == l.dataStart
            && (forall k | 12 <= k < 16 || 80 <= k < 112 :: sb[k] == 0)
  {
    SuperblockDescribes(l, size);
    VersionAndZeros(Counts(l));
  }

  lemma VersionAndZeros(counts: seq<nat>)
    requires |counts| == 8
    ensures var sb := Superblock(counts);
            && Field(sb, 4, 4) == 1 && Field(sb, 8, 4) == 0
            && (forall k | 12 <= k < 16 || 80 <= k < 112 :: sb[k] == 0)
  {
    var head, sb := Head(counts), Superblock(counts);
    assert forall k | 0 <= k < 112 :: sb[k] == head[k];
    Pow256s();
    StoredReadsBack(sb, 4, 4, 1);
    forall k | 8 <= k < 12 ensures sb[k] == ByteAt(0, k - 8) { ByteOfZero(k - 8); }
    StoredReadsBack(sb, 8, 4, 0);
  }

  lemma {:induction false} ByteOfZero(k: nat)
    ensures ByteAt(0, k) == 0
  {
    if k > 0 { ByteOfZero(k - 1); }
  }

  /** The root inode: mode 0755 of a directory, one block of 4096 bytes, its number at byte 36,
      and zeros everywhere else. */
  lemma InodeBytes(dataStart: nat)
    ensures var ino := RootInode(dataStart);
            && |ino| == 84 && Field(ino, 0, 4) == 0x21ED && Field(ino, 12, 4) == 4096 && Field(ino, 32, 4) == 1
            && Field(ino, 36, 4) == dataStart % 0x1_0000_0000
            && (forall k | 4 <= k < 12 || 16 <= k < 32 || 40 <= k < 84 :: ino[k] == 0)
  {
    var ino := RootInode(dataStart);
    Pow256s();
    InodeReadsBack(dataStart);
    StoredReadsBack(ino, 0, 4, 8685);
    StoredReadsBack(ino, 32, 4, 1);
  }

  // ----- The layout -----

  /** Nothing is larger than it has to be: a device has all its whole blocks, one inode for
      every four of them, and the bitmaps and the inode table no block to spare. */
  lemma LayoutIsTight(size: nat)
    requires size >= 16777216
    ensures var l := LayoutFor(size);
            && l.blocks * 4096 <= size < (l.blocks + 1) * 4096
            && 4 * l.inodes <= l.blocks < 4 * l.inodes + 4
            && l.blockBitmap == 2
            && (l.inodeBitmap - 3) * 32768 < l.blocks <= (l.inodeBitmap - 2) * 32768
            && (l.inodeTable - l.inodeBitmap - 1) * 32768 < l.inodes <= (l.inodeTable - l.inodeBitmap) * 32768
            && (l.dataStart - l.inodeTable - 1) * 4096 < l.inodes * 84 <= (l.dataStart - l.inodeTable) * 4096
  {
    var l := LayoutFor(size);
    RoundUpHolds(l.blocks, 8 * BLOCK);
    RoundUpHolds(l.inodes, 8 * BLOCK);
    RoundUpHolds(l.inodes * INODE_SIZE, BLOCK);
  }
}
