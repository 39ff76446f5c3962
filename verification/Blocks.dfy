/** What a byte range of an inode is, in terms of the 4096-byte blocks stored for it. */
module Blocks {
  import opened Keys
  import opened Store

  /** The bits that a and b share: the C operator & on non-negative operands. */
  function BitAnd(a: nat, b: nat): nat {
    if a == 0 || b == 0 then 0 else (a % 2) * (b % 2) + 2 * BitAnd(a / 2, b / 2)
  }

  function Pow2(k: nat): (p: nat)
    ensures p > 0
  {
    if k == 0 then 1 else 2 * Pow2(k - 1)
  }

  lemma HalveRemainder(a: nat, p: nat)
    requires p > 0
    ensures a % (2 * p) == a % 2 + 2 * ((a / 2) % p)
  {
    var q, r := (a / 2) / p, (a / 2) % p;
    assert a == q * (2 * p) + (2 * r + a % 2) by {
      assert a / 2 == q * p + r;
      assert q * (2 * p) == 2 * (q * p);
    }
    RemainderIsUnique(a, 2 * p, q, 2 * r + a % 2);
  }

  lemma RemainderIsUnique(a: nat, d: nat, q: nat, r: nat)
    requires 0 <= r < d && a == q * d + r
    ensures a % d == r
  {
    if q > 0 {
      RemainderIsUnique(a - d, d, q - 1, r) by {
        assert (q - 1) * d == q * d - d;
      }
      RemainderDropsMultiple(a - d, d);
    }
  }

  lemma RemainderDropsMultiple(a: nat, d: nat)
    requires d > 0
    ensures (a + d) % d == a % d
  {
    var c := (a + d) / d - a / d - 1;
    assert c * d == (a + d) / d * d - a / d * d - d;
    assert c * d == a % d - (a + d) % d;
    MultipleIsFar(c, d);
  }

  lemma MultipleIsFar(c: int, d: int)
    requires d > 0
    ensures c >= 1 ==> c * d >= d
    ensures c <= -1 ==> c * d <= -d
  {
  }

  /** A mask of k low bits takes the remainder modulo 2^k. */
  lemma {:induction false} LowBits(a: nat, k: nat)
    ensures BitAnd(a, Pow2(k) - 1) == a % Pow2(k)
  {
    if k > 0 {
      LowBits(a / 2, k - 1);
      HalveRemainder(a, Pow2(k - 1));
      assert Pow2(k) - 1 == 2 * (Pow2(k - 1) - 1) + 1;
      if a > 0 {
        assert (Pow2(k) - 1) / 2 == Pow2(k - 1) - 1;
        assert (Pow2(k) - 1) % 2 == 1;
      }
    }
  }

  function Floor(offset: nat): (o: nat)
    ensures o <= offset < o + BLKSIZE
  {
    offset - offset % BLKSIZE
  }

  /** The expression `offset - (offset & (DBFS_BLKSIZE - 1))` rounds down to a block boundary. */
  lemma MaskIsFloor(offset: nat)
    ensures BitAnd(offset, BLKSIZE - 1) <= offset
    ensures offset - BitAnd(offset, BLKSIZE - 1) == Floor(offset)
    ensures offset - BitAnd(offset, 4095) == offset / 4096 * 4096
  {
    assert Pow2(4) == 16;
    assert Pow2(8) == 256;
    assert Pow2(12) == BLKSIZE;
    LowBits(offset, 12);
  }

  lemma FloorIsUnique(i: nat, o: nat)
    requires o % BLKSIZE == 0 && o <= i < o + BLKSIZE
    ensures Floor(i) == o
  {
  }

  /** The part of a range that starts at off and stays within its block, and where the next part starts. */
  lemma BlockSpan(off: nat, left: nat, n: nat)
    requires left > 0 && n == Min(left, BLKSIZE - (off - Floor(off)))
    ensures 0 < n <= left && off - Floor(off) + n <= BLKSIZE
    ensures Floor(off + n - 1) == Floor(off)
    ensures n < left ==> Floor(off + n) == off + n == Floor(off) + BLKSIZE
  {
  }

  /** The aligned block at o meets the byte range [off, off + n). */
  predicate Meets(o: nat, off: nat, n: nat) {
    n > 0 && o % BLKSIZE == 0 && o < off + n && off < o + BLKSIZE
  }

  ghost function Touched(ino: nat, off: nat, n: nat): (ks: set<Key>)
    ensures forall k :: k in ks <==> k.Block? && k.ino == ino && Meets(k.off, off, n)
  {
    set o: nat | o < off + n && Meets(o, off, n) :: Block(ino, o)
  }

  /** The blocks that meet a non-empty range are those whose offset lies between its start rounded down and its end. */
  lemma TouchedIsInterval(ino: nat, off: nat, n: nat, k: Key)
    requires n > 0
    ensures k in Touched(ino, off, n) <==>
      k.Block? && k.ino == ino && k.off % BLKSIZE == 0 && Floor(off) <= k.off < off + n
  {
  }

  predicate HasByte(m: Tree, ino: nat, i: nat) {
    Block(ino, Floor(i)) in m
  }

  /** The byte of an inode at i; an absent block reads as zeros. */
  function ByteAt(m: Tree, ino: nat, i: nat): Byte {
    if HasByte(m, ino, i) then m[Block(ino, Floor(i))].bytes[i % BLKSIZE] else 0
  }

  function BytesAt(m: Tree, ino: nat, off: nat, n: nat): (s: seq<Byte>)
    ensures |s| == n
  {
    seq<Byte>(n, i requires 0 <= i < n => ByteAt(m, ino, off + i))
  }

  /** What malloc returns when the block at an offset is created: any contents at all. */
  type Garbage = nat -> Buffer

  /** The block at o after the bytes of data at off replace those it had. */
  function Overlay(b: Buffer, o: nat, off: nat, data: seq<Byte>): Buffer {
    seq(BLKSIZE, j requires 0 <= j < BLKSIZE => if off <= o + j < off + |data| then data[o + j - off] else b[j])
  }

  function Before(m: Tree, k: Key, garbage: Garbage): Buffer
    requires k.Block?
  {
    if k in m then m[k].bytes else garbage(k.off)
  }

  /** The store after data is written at off: every block that meets the range is present and carries its part
      of data over what it had before, or over garbage; nothing else changes. */
  ghost function Written(m: Tree, ino: nat, off: nat, data: seq<Byte>, garbage: Garbage): Tree {
    map k | k in m.Keys + Touched(ino, off, |data|) ::
      if k in Touched(ino, off, |data|) then BlockRec(Overlay(Before(m, k, garbage), k.off, off, data)) else m[k]
  }

  /** Garbage of a write that was made in two calls: blocks of the first part come from the first call. */
  function Joined(f1: Garbage, f2: Garbage, off: nat, n: nat): Garbage {
    o => if Meets(o, off, n) then f1(o) else f2(o)
  }

  /** Writing in two calls is writing once, up to what malloc returned for blocks that did not exist. */
  lemma SplitWrite(m: Tree, ino: nat, off: nat, s1: seq<Byte>, s2: seq<Byte>, f1: Garbage, f2: Garbage)
    ensures Written(Written(m, ino, off, s1, f1), ino, off + |s1|, s2, f2)
         == Written(m, ino, off, s1 + s2, Joined(f1, f2, off, |s1|))
  {
    hide Overlay, Before;
    var mid := Written(m, ino, off, s1, f1);
    var twice := Written(mid, ino, off + |s1|, s2, f2);
    var f := Joined(f1, f2, off, |s1|);
    var once := Written(m, ino, off, s1 + s2, f);
    forall k ensures k in once <==> k in twice {
      assert k.Block? && Meets(k.off, off, |s1| + |s2|) <==>
        k.Block? && (Meets(k.off, off, |s1|) || Meets(k.off, off + |s1|, |s2|));
    }
    forall k | k in once ensures once[k] == twice[k] {
      if k in Touched(ino, off, |s1 + s2|) {
        SplitBlock(m, ino, off, s1, s2, f1, f2, k);
      }
    }
  }

  lemma SplitBlock(m: Tree, ino: nat, off: nat, s1: seq<Byte>, s2: seq<Byte>, f1: Garbage, f2: Garbage, k: Key)
    requires k in Touched(ino, off, |s1 + s2|)
    ensures var mid := Written(m, ino, off, s1, f1);
            var twice := Written(mid, ino, off + |s1|, s2, f2);
            k in twice && twice[k] == BlockRec(Overlay(Before(m, k, Joined(f1, f2, off, |s1|)), k.off, off, s1 + s2))
  {
    hide Overlay;
    var mid := Written(m, ino, off, s1, f1);
    var before := Before(m, k, Joined(f1, f2, off, |s1|));
    OverlayTwice(before, k.off, off, s1, s2);
    if !Meets(k.off, off, |s1|) {
      OverlayMisses(before, k.off, off, s1);
    }
    if !Meets(k.off, off + |s1|, |s2|) {
      OverlayMisses(Overlay(before, k.off, off, s1), k.off, off + |s1|, s2);
    }
  }

  lemma OverlayTwice(b: Buffer, o: nat, off: nat, s1: seq<Byte>, s2: seq<Byte>)
    ensures Overlay(Overlay(b, o, off, s1), o, off + |s1|, s2) == Overlay(b, o, off, s1 + s2)
  {
  }

  lemma OverlayMisses(b: Buffer, o: nat, off: nat, data: seq<Byte>)
    requires o % BLKSIZE == 0 && !Meets(o, off, |data|)
    ensures Overlay(b, o, off, data) == b
  {
  }

  /** Reading in two calls is reading once. */
  lemma SplitRead(m: Tree, ino: nat, off: nat, n1: nat, n2: nat)
    ensures BytesAt(m, ino, off, n1 + n2) == BytesAt(m, ino, off, n1) + BytesAt(m, ino, off + n1, n2)
  {
  }

  /** The frame of a write: the range reads back, every byte that existed elsewhere is unchanged, blocks appear
      exactly where the range reaches, and no other key changes. */
  lemma WriteFrame(m: Tree, ino: nat, off: nat, data: seq<Byte>, garbage: Garbage, i: nat)
    ensures var m' := Written(m, ino, off, data, garbage);
            && (off <= i < off + |data| ==> HasByte(m', ino, i) && ByteAt(m', ino, i) == data[i - off])
            && (!(off <= i < off + |data|) && HasByte(m, ino, i) ==>
                  HasByte(m', ino, i) && ByteAt(m', ino, i) == ByteAt(m, ino, i))
            && (HasByte(m', ino, i) <==> HasByte(m, ino, i) || Meets(Floor(i), off, |data|))
            && (forall k :: k !in Touched(ino, off, |data|) ==> (k in m' <==> k in m) && (k in m ==> m'[k] == m[k]))
  {
    var m' := Written(m, ino, off, data, garbage);
    var k := Block(ino, Floor(i));
    if k in Touched(ino, off, |data|) {
      assert m'[k] == BlockRec(Overlay(Before(m, k, garbage), k.off, off, data));
      assert k.off + i % BLKSIZE == i;
    }
  }

  /** Byte i of an inode is byte i % 4096 of the block that is stored under i / 4096 * 4096. */
  lemma BytesAreStored(m: Tree, ino: nat, off: nat, data: seq<Byte>, garbage: Garbage, i: nat)
    requires off <= i < off + |data|
    ensures var m', k := Written(m, ino, off, data, garbage), Block(ino, i / 4096 * 4096);
            k in m' && |m'[k].bytes| == 4096 && m'[k].bytes[i % 4096] == data[i - off]
  {
    hide Written;
    WriteFrame(m, ino, off, data, garbage, i);
  }

  /** What a new block holds outside the written range is what malloc returned. */
  lemma NewBlocksHoldGarbage(m: Tree, ino: nat, off: nat, data: seq<Byte>, garbage: Garbage, i: nat)
    requires !HasByte(m, ino, i) && Meets(Floor(i), off, |data|) && !(off <= i < off + |data|)
    ensures ByteAt(Written(m, ino, off, data, garbage), ino, i) == garbage(i / 4096 * 4096)[i % 4096]
  {
    var k := Block(ino, Floor(i));
    assert k in Touched(ino, off, |data|);
    assert k.off + i % BLKSIZE == i;
  }

  /** What malloc returned shows in no byte that was stored before or is written now, and in no key. */
  lemma GarbageIsInvisible(m: Tree, ino: nat, off: nat, data: seq<Byte>, f: Garbage, g: Garbage, i: nat)
    ensures Written(m, ino, off, data, f).Keys == Written(m, ino, off, data, g).Keys
    ensures off <= i < off + |data| || HasByte(m, ino, i) ==>
      ByteAt(Written(m, ino, off, data, f), ino, i) == ByteAt(Written(m, ino, off, data, g), ino, i)
  {
    WriteFrame(m, ino, off, data, f, i);
    WriteFrame(m, ino, off, data, g, i);
  }

  /** Read-back over the whole range at once. */
  lemma WriteThenRead(m: Tree, ino: nat, off: nat, data: seq<Byte>, garbage: Garbage)
    ensures BytesAt(Written(m, ino, off, data, garbage), ino, off, |data|) == data
  {
    forall j: nat | j < |data| ensures BytesAt(Written(m, ino, off, data, garbage), ino, off, |data|)[j] == data[j] {
      WriteFrame(m, ino, off, data, garbage, off + j);
    }
  }

  lemma SameGarbage(m: Tree, ino: nat, off: nat, data: seq<Byte>, f: Garbage, g: Garbage)
    requires forall o :: f(o) == g(o)
    ensures Written(m, ino, off, data, f) == Written(m, ino, off, data, g)
  {
    forall k | k in Touched(ino, off, |data|)
      ensures Overlay(Before(m, k, f), k.off, off, data) == Overlay(Before(m, k, g), k.off, off, data)
    {
      assert Before(m, k, f) == Before(m, k, g);
    }
  }

  /** memcpy of a chunk into a block buffer. */
  function Patch(b: Buffer, at: nat, chunk: seq<Byte>): Buffer
    requires at + |chunk| <= BLKSIZE
  {
    b[..at] + chunk + b[at + |chunk|..]
  }

  /** One put of a patched block is the write of the bytes it carries. */
  lemma WriteWithinBlock(m: Tree, ino: nat, off: nat, chunk: seq<Byte>, garbage: Garbage)
    requires chunk != [] && off - Floor(off) + |chunk| <= BLKSIZE
    ensures var k := Block(ino, Floor(off));
            var at := off - Floor(off);
            var b := Before(m, k, garbage);
            Written(m, ino, off, chunk, garbage) == m[k := BlockRec(Patch(b, at, chunk))]
  {
    var k := Block(ino, Floor(off));
    var at := off - Floor(off);
    var b := Before(m, k, garbage);
    forall o ensures Meets(o, off, |chunk|) <==> o == Floor(off) {
    }
    assert Overlay(b, k.off, off, chunk) == Patch(b, at, chunk);
  }

  /** The bytes of one block that a read copies out or, when the block is absent, clears. */
  lemma ReadWithinBlock(m: Tree, ino: nat, off: nat, n: nat)
    requires n > 0 && off - Floor(off) + n <= BLKSIZE
    ensures var k := Block(ino, Floor(off));
            var at := off - Floor(off);
            BytesAt(m, ino, off, n) == if k in m then m[k].bytes[at..at + n] else seq<Byte>(n, _ => 0)
  {
    var k := Block(ino, Floor(off));
    var at := off - Floor(off);
    forall i: nat | off <= i < off + n
      ensures ByteAt(m, ino, i) == if k in m then m[k].bytes[at + i - off] else 0
    {
      FloorIsUnique(i, Floor(off));
    }
    if k in m {
      assert BytesAt(m, ino, off, n) == m[k].bytes[at..at + n];
    }
  }

  /** Every block below size is present. */
  ghost predicate Dense(m: Tree, ino: nat, size: nat) {
    forall i: nat :: i < size ==> HasByte(m, ino, i)
  }

  /** A byte sequence after data is stored at off. */
  function FlatWrite(c: seq<Byte>, off: nat, data: seq<Byte>): seq<Byte>
    requires off <= |c|
  {
    c[..off] + data + if off + |data| <= |c| then c[off + |data|..] else []
  }

  function Max(a: nat, b: nat): nat {
    if a < b then b else a
  }

  function Min(a: nat, b: nat): nat {
    if a < b then a else b
  }

  /** On a file without holes a block write is a write on the flat byte sequence, whatever garbage was. */
  lemma WriteRefinesFlat(m: Tree, ino: nat, size: nat, off: nat, data: seq<Byte>, garbage: Garbage)
    requires Dense(m, ino, size) && off <= size
    ensures var m' := Written(m, ino, off, data, garbage);
            var size' := Max(size, off + |data|);
            && Dense(m', ino, size')
            && BytesAt(m', ino, 0, size') == FlatWrite(BytesAt(m, ino, 0, size), off, data)
  {
    var m' := Written(m, ino, off, data, garbage);
    var size' := Max(size, off + |data|);
    forall i: nat | i < size'
      ensures HasByte(m', ino, i)
      ensures ByteAt(m', ino, i) == FlatWrite(BytesAt(m, ino, 0, size), off, data)[i]
    {
      WriteFrame(m, ino, off, data, garbage, i);
    }
  }

  /** A shorter size shows a prefix of the same bytes. */
  lemma ShrinkIsPrefix(m: Tree, ino: nat, size: nat, n: nat)
    requires n <= size
    ensures BytesAt(m, ino, 0, n) == BytesAt(m, ino, 0, size)[..n]
    ensures Dense(m, ino, size) ==> Dense(m, ino, n)
  {
  }
}
