/** Byte streams over blocks: dbfs_readwrite, dbfs_truncateblocks and the stream and size operations of a handle. */
module Stream {
  import opened CStrings
  import opened Keys
  import opened Store
  import opened Blocks
  import opened Attributes

  // What the operations promise, on values

  /** DB_NOTFOUND exactly when the block that holds the last of n bytes from off is absent. */
  ghost function LastStatus(m: Tree, ino: nat, off: nat, n: nat): Err {
    if n > 0 && !HasByte(m, ino, off + n - 1) then DbNotFound else Success
  }

  /** The first done bytes of the buffer hold what is stored from off on; the rest is as it was. */
  ghost predicate Filled(m: Tree, ino: nat, off: nat, buf0: seq<Byte>, done: nat, buf: seq<Byte>) {
    done <= |buf0| && buf == BytesAt(m, ino, off, done) + buf0[done..]
  }

  /** Reading [off, off + n) into the front of a buffer. The status is that of the last block visited. */
  ghost predicate RangeRead(m: Tree, ino: nat, off: nat, n: nat, buf0: seq<Byte>, buf1: seq<Byte>, count: nat, error: Err) {
    && count <= n
    && Filled(m, ino, off, buf0, count, buf1)
    && error == (if count < n then EIO else LastStatus(m, ino, off, n))
  }

  /** m' is m with the first done bytes of the buffer written at off. */
  ghost predicate Stored(m: Tree, ino: nat, off: nat, buf: seq<Byte>, done: nat, garbage: Garbage, m': Tree) {
    done <= |buf| && m' == Written(m, ino, off, buf[..done], garbage)
  }

  /** Writing the first n bytes of a buffer at off. A failed call leaves what a successful write of the finished part
      leaves. */
  ghost predicate RangeWritten(m: Tree, ino: nat, off: nat, buf: seq<Byte>, n: nat, garbage: Garbage,
                               m': Tree, count: nat, error: Err)
  {
    && count <= n
    && Stored(m, ino, off, buf, count, garbage, m')
    && error == (if count < n then EIO else Success)
  }

  /** The aligned offsets that meet [off, off + n), in increasing order, as far as done. */
  ghost predicate VisitsInOrder(visited: seq<nat>, off: nat, done: nat) {
    && (forall i :: 0 <= i < |visited| ==> visited[i] == Floor(off) + i * BLKSIZE)
    && (forall o: nat :: o in visited <==> Meets(o, off, done))
  }

  ghost predicate Visiting(visited: seq<nat>, off: nat, done: nat, next: nat) {
    VisitsInOrder(visited, off, done) && next == Floor(off) + |visited| * BLKSIZE
  }

  lemma VisitNext(visited: seq<nat>, off: nat, done: nat, n: nat, o: nat)
    requires Visiting(visited, off, done, o) && o == Floor(off + done)
    requires 0 < n && off + done - o + n <= BLKSIZE
    ensures VisitsInOrder(visited + [o], off, done + n) && Visiting(visited + [o], off, done + n, o + BLKSIZE)
  {
    RangeNext(off, done, n);
  }

  lemma VisitNone(off: nat)
    ensures VisitsInOrder([], off, 0) && Visiting([], off, 0, Floor(off))
  {
  }

  /** A further part within one block adds that block to those the range meets. */
  lemma RangeNext(off: nat, done: nat, n: nat)
    requires n > 0 && off + done - Floor(off + done) + n <= BLKSIZE
    ensures forall o: nat :: Meets(o, off, done + n) <==> Meets(o, off, done) || o == Floor(off + done)
  {
    forall o: nat ensures Meets(o, off, done + n) <==> Meets(o, off, done) || o == Floor(off + done) {
    }
  }

  method CopyInto(buf: array<Byte>, at: nat, src: seq<Byte>)
    requires at + |src| <= buf.Length
    modifies buf
    ensures buf[..] == old(buf[..at]) + src + old(buf[at + |src|..])
  {
    forall j | 0 <= j < |src| {
      buf[at + j] := src[j];
    }
  }

  /** One lap of a read: the block is fetched and copied out, or the buffer is cleared where the block is absent. */
  method ReadPart(dbp: Db, ino: nat, buf: array<Byte>, bp: SizeT, off: SizeT, n: SizeT) returns (rc: Err)
    requires 0 < n && bp + n <= buf.Length && off - Floor(off) + n <= BLKSIZE
    modifies buf
    ensures dbp.reliable ==> rc != DbFault
    ensures rc == DbFault || rc == if HasByte(dbp.recs, ino, off) then Success else DbNotFound
    ensures buf[..] == if rc == DbFault then old(buf[..])
                       else old(buf[..bp]) + BytesAt(dbp.recs, ino, off, n) + old(buf[bp + n..])
  {
    var rec;
    rc, rec := dbp.Get(Block(ino, Floor(off)));
    if rc != DbFault {
      var offinblk := off - Floor(off);
      var bytes := if rc == DbNotFound then seq<Byte>(n, _ => 0) else rec.bytes[offinblk..offinblk + n];
      ReadWithinBlock(dbp.recs, ino, off, n);
      CopyInto(buf, bp, bytes);
    }
  }

  /** One lap of a write: the block is fetched, or made from malloc's garbage, patched and put back. */
  method WritePart(dbp: Db, ino: nat, buf: array<Byte>, bp: SizeT, off: SizeT, n: SizeT, garbage: Garbage) returns (rc: Err)
    requires 0 < n && bp + n <= buf.Length && off - Floor(off) + n <= BLKSIZE
    modifies dbp
    ensures rc == Success || rc == DbFault
    ensures dbp.reliable ==> rc == Success
    ensures dbp.recs == if rc == Success then Written(old(dbp.recs), ino, off, buf[..][bp..bp + n], garbage)
                        else old(dbp.recs)
  {
    var key, rec := Block(ino, Floor(off)), FsInfoRec(0);
    rc, rec := dbp.Get(key);
    if rc != DbFault {
      var data := if rc == DbNotFound then garbage(Floor(off)) else rec.bytes;
      WriteWithinBlock(dbp.recs, ino, off, buf[bp..bp + n], garbage);
      assert buf[..][bp..bp + n] == buf[bp..bp + n];
      rc := dbp.Put(key, BlockRec(Patch(data, off - Floor(off), buf[bp..bp + n])));
    }
  }

  /** dbfs_readwrite. With offset + size below 2^63 no machine integer wraps: every variable below has a
      bounded type. */
  method ReadWrite(dbp: Db, ino: nat, buf: array<Byte>, size: SizeT, offset: OffT, read: bool, garbage: Garbage)
    returns (count: SizeT, error: Err, ghost visited: seq<nat>)
    requires size <= buf.Length && 0 <= offset && offset + size < TWO63
    modifies dbp, buf
    ensures read ==> dbp.recs == old(dbp.recs)
    ensures read ==> RangeRead(dbp.recs, ino, offset, size, old(buf[..]), buf[..], count, error)
    ensures !read ==> buf[..] == old(buf[..])
    ensures !read ==> RangeWritten(old(dbp.recs), ino, offset, buf[..], size, garbage, dbp.recs, count, error)
    ensures VisitsInOrder(visited, offset, count)
    ensures dbp.reliable ==> count == size && error != EIO
    ensures read && count == size > 0 ==>
              error == if Block(ino, (offset + size - 1) / 4096 * 4096) in dbp.recs then Success else DbNotFound
  {
    hide Written, Touched, BytesAt, Filled, Stored, LastStatus, Visiting, HasByte, BitAnd, VisitsInOrder, Meets, Floor;
    ghost var buf0 := buf[..];
    ghost var recs0 := dbp.recs;
    MaskIsFloor(offset);
    var off: OffT, bp: SizeT, left: SizeT := offset, 0, size;
    var dbkOffset: SizeT := offset - BitAnd(offset, BLKSIZE - 1);
    count, error, visited := 0, Success, [];
    WriteNothing(recs0, ino, offset, buf0, garbage);
    ReadNothing(recs0, ino, offset, buf0);
    VisitNone(offset);
    while left != 0
      invariant bp + left == size && count == bp && off == offset + bp
      invariant left > 0 ==> dbkOffset == Floor(off) && Visiting(visited, offset, bp, dbkOffset)
      invariant read ==> dbp.recs == recs0
      invariant read ==> Filled(recs0, ino, offset, buf0, bp, buf[..])
      invariant read ==> error == LastStatus(recs0, ino, offset, bp)
      invariant error != EIO
      invariant !read ==> buf[..] == buf0 && error == Success
      invariant !read ==> Stored(recs0, ino, offset, buf0, bp, garbage, dbp.recs)
      invariant VisitsInOrder(visited, offset, bp)
      decreases left
    {
      var offinblk: SizeT := off - dbkOffset;
      var sizeinblk: SizeT := left;
      if offinblk + sizeinblk > BLKSIZE {
        sizeinblk := BLKSIZE - offinblk;
      }
      BlockSpan(off, left, sizeinblk);
      var rc;
      if read {
        ghost var before := buf[..];
        rc := ReadPart(dbp, ino, buf, bp, off, sizeinblk);
        ReadNext(recs0, ino, offset, bp, sizeinblk, buf0, before, buf[..]);
        assert rc != DbFault ==> rc == LastStatus(recs0, ino, offset, bp + sizeinblk);
      } else {
        WriteNext(recs0, ino, offset, buf0, bp, sizeinblk, garbage, dbp.recs);
        rc := WritePart(dbp, ino, buf, bp, off, sizeinblk, garbage);
      }
      if rc == DbFault {
        error := EIO;
        return;
      }
      error := rc;
      VisitNext(visited, offset, bp, sizeinblk, dbkOffset);
      visited := visited + [dbkOffset];
      off, bp, left := off + sizeinblk, bp + sizeinblk, left - sizeinblk;
      dbkOffset := off;
      count := count + sizeinblk;
    }
    LastStatusIs(recs0, ino, offset, size);
  }

  lemma LastStatusIs(m: Tree, ino: nat, off: nat, n: nat)
    ensures n > 0 ==>
              LastStatus(m, ino, off, n) == if Block(ino, (off + n - 1) / 4096 * 4096) in m then Success else DbNotFound
  {
  }

  lemma WriteNothing(m: Tree, ino: nat, off: nat, buf: seq<Byte>, garbage: Garbage)
    ensures Stored(m, ino, off, buf, 0, garbage, m)
  {
  }

  /** When done bytes are written, writing the next n makes it done + n. */
  lemma WriteNext(m: Tree, ino: nat, off: nat, buf: seq<Byte>, done: nat, n: nat, garbage: Garbage, cur: Tree)
    requires done + n <= |buf| && Stored(m, ino, off, buf, done, garbage, cur)
    ensures Stored(m, ino, off, buf, done + n, garbage, Written(cur, ino, off + done, buf[done..done + n], garbage))
  {
    hide Written;
    var head, chunk := buf[..done], buf[done..done + n];
    assert head + chunk == buf[..done + n];
    SplitWrite(m, ino, off, head, chunk, garbage, garbage);
    SameGarbage(m, ino, off, head + chunk, garbage, Joined(garbage, garbage, off, done));
  }

  lemma ReadNothing(m: Tree, ino: nat, off: nat, buf0: seq<Byte>)
    ensures Filled(m, ino, off, buf0, 0, buf0) && LastStatus(m, ino, off, 0) == Success
  {
  }

  lemma ReadNext(m: Tree, ino: nat, off: nat, done: nat, n: nat, buf0: seq<Byte>, before: seq<Byte>, after: seq<Byte>)
    requires n > 0 && off + done - Floor(off + done) + n <= BLKSIZE
    requires done + n <= |buf0| && Filled(m, ino, off, buf0, done, before)
    ensures LastStatus(m, ino, off, done + n) == if HasByte(m, ino, off + done) then Success else DbNotFound
    ensures after == before[..done] + BytesAt(m, ino, off + done, n) + before[done + n..] ==>
              Filled(m, ino, off, buf0, done + n, after)
  {
    SplitRead(m, ino, off, done, n);
    assert before[..done] == BytesAt(m, ino, off, done);
  }

  /** dbfs_truncateblocks as it is built: the guard reads `size <= 0` on an unsigned size. The loop is observed for
      at most `budget` laps; `returned` says whether the call came back within them. */
  method TruncateBlocks(dbp: Db, ino: nat, offset: OffT, end: OffT, budget: nat) returns (returned: bool, error: Err)
    requires 0 <= offset && 0 <= end
    modifies dbp
    ensures offset != end ==> returned && error == Success && dbp.recs == old(dbp.recs)
    ensures offset == end ==> (returned <==> error == EIO)
    ensures dbp.reliable && offset == end ==> !returned
    ensures !returned && budget > 0 ==> Block(ino, Floor(offset)) !in dbp.recs
    ensures offset == end && offset == 0 ==> dbp.recs == old(dbp.recs) || dbp.recs == old(dbp.recs) - {Block(ino, 0)}
    ensures dbp.recs == old(dbp.recs) - (old(dbp.recs.Keys) - dbp.recs.Keys)
    ensures old(dbp.recs.Keys) - dbp.recs.Keys <= {Block(ino, Floor(offset)), Block(ino, offset)}
  {
    ghost var recs0 := dbp.recs;
    var size: SizeT := U64(end - offset);
    MaskIsFloor(offset);
    var off: SizeT, dbkOffset: SizeT := offset, offset - BitAnd(offset, BLKSIZE - 1);
    var laps := 0;
    error := Success;
    while size <= 0 && laps < budget
      invariant size == U64(end - offset) && off == offset
      invariant dbkOffset == if laps == 0 then Floor(offset) else offset
      invariant laps <= budget && (laps > 0 ==> Block(ino, Floor(offset)) !in dbp.recs)
      invariant error != EIO
      invariant offset != end ==> error == Success && dbp.recs == recs0
      invariant dbp.recs == recs0 - (recs0.Keys - dbp.recs.Keys)
      invariant recs0.Keys - dbp.recs.Keys <= {Block(ino, Floor(offset)), Block(ino, offset)}
      decreases budget - laps
    {
      var offinblk := off - dbkOffset;
      var sizeinblk := size;
      if offinblk + sizeinblk > BLKSIZE {
        sizeinblk := BLKSIZE - offinblk;
      }
      error := dbp.Del(Block(ino, dbkOffset));
      if error != Success {
        if error != DbNotFound {
          return true, EIO;
        }
      }
      off, size := off + sizeinblk, size - sizeinblk;
      dbkOffset := off;
      laps := laps + 1;
    }
    returned := size > 0;
  }

  /** The store without the blocks that meet [off, off + n). */
  ghost function Truncated(m: Tree, ino: nat, off: nat, n: nat): Tree {
    m - Touched(ino, off, n)
  }

  /** dbfs_truncateblocks with the guard `while(size)`: it ends, and deletes exactly the blocks from offset rounded
      down to end. The status is that of the last block visited. */
  method TruncateBlocksWhileSize(dbp: Db, ino: nat, offset: OffT, end: OffT) returns (error: Err, ghost done: nat)
    requires 0 <= offset <= end
    modifies dbp
    ensures done <= end - offset && dbp.recs == Truncated(old(dbp.recs), ino, offset, done)
    ensures error == if done < end - offset then EIO else LastStatus(old(dbp.recs), ino, offset, done)
    ensures dbp.reliable ==> done == end - offset
  {
    hide Touched, Meets, BitAnd, Floor, Truncated;
    TruncateNothing(dbp.recs, ino, offset);
    ghost var recs0 := dbp.recs;
    var size: SizeT := U64(end - offset);
    MaskIsFloor(offset);
    var off: SizeT, dbkOffset: SizeT := offset, offset - BitAnd(offset, BLKSIZE - 1);
    error, done := Success, 0;
    while size != 0
      invariant off + size == end && off == offset + done
      invariant size > 0 ==> dbkOffset == Floor(off)
      invariant size > 0 && done > 0 ==> off == dbkOffset
      invariant dbp.recs == Truncated(recs0, ino, offset, done)
      invariant error == LastStatus(recs0, ino, offset, done)
      decreases size
    {
      var offinblk: SizeT := off - dbkOffset;
      var sizeinblk: SizeT := size;
      if offinblk + sizeinblk > BLKSIZE {
        sizeinblk := BLKSIZE - offinblk;
      }
      BlockSpan(off, size, sizeinblk);
      TruncateStep(recs0, ino, offset, done, sizeinblk);
      error := dbp.Del(Block(ino, dbkOffset));
      if error != Success {
        if error != DbNotFound {
          error := EIO;
          return;
        }
      }
      off, size := off + sizeinblk, size - sizeinblk;
      dbkOffset := off;
      done := done + sizeinblk;
    }
  }

  lemma TruncateNothing(m: Tree, ino: nat, off: nat)
    ensures Truncated(m, ino, off, 0) == m
  {
  }

  /** Deleting the block that holds the next bytes extends the truncated range over them. */
  lemma TruncateStep(m: Tree, ino: nat, off: nat, done: nat, n: nat)
    requires n > 0 && off + done - Floor(off + done) + n <= BLKSIZE
    requires done > 0 ==> off + done == Floor(off + done)
    ensures var k := Block(ino, Floor(off + done));
            && Truncated(m, ino, off, done + n) == Truncated(m, ino, off, done) - {k}
            && (k in Truncated(m, ino, off, done) <==> k in m)
  {
    RangeNext(off, done, n);
    assert Touched(ino, off, done + n) == Touched(ino, off, done) + {Block(ino, Floor(off + done))};
  }

  /** Shrinking a file with the `while(size)` form keeps the bytes below the new size exactly when that size is on a
      block boundary, or its block was a hole anyway. */
  lemma TruncateKeepsPrefix(m: Tree, ino: nat, a: nat, end: nat)
    requires a < end
    ensures (forall i: nat :: i < a ==> (HasByte(Truncated(m, ino, a, end - a), ino, i) <==> HasByte(m, ino, i)))
       <==> a % BLKSIZE == 0 || !HasByte(m, ino, a)
  {
    var m' := Truncated(m, ino, a, end - a);
    if a % BLKSIZE == 0 || !HasByte(m, ino, a) {
      forall i: nat | i < a ensures HasByte(m', ino, i) <==> HasByte(m, ino, i) {
        if Floor(i) == Floor(a) {
          assert a % BLKSIZE != 0;
        } else {
          assert !Meets(Floor(i), a, end - a);
        }
      }
    } else {
      FloorIsUnique(Floor(a), Floor(a));
      assert Meets(Floor(a), a, end - a);
      assert HasByte(m, ino, Floor(a)) && !HasByte(m', ino, Floor(a));
    }
  }

  // The operations of a handle

  /** dbfs_read past the end returns at once and leaves the caller's size as it was. */
  ghost predicate ReadOutcome(m: Tree, attr: Attr, n: nat, off: nat, buf0: seq<Byte>, buf1: seq<Byte>,
                              count: nat, error: Err)
  {
    if off > attr.size then error == Success && count == n && buf1 == buf0
    else RangeRead(m, attr.ino, off, Min(n, attr.size - off), buf0, buf1, count, error)
  }

  /** dbfs_write: the size moves only after every block is in, and is stored last. */
  ghost predicate WriteOutcome(m: Tree, path: CString, attr: Attr, off: nat, data: seq<Byte>, garbage: Garbage,
                               m': Tree, attr': Attr, count: nat, error: Err) {
    var whole := Written(m, attr.ino, off, data, garbage);
    var grown := attr.(size := Max(attr.size, off + |data|));
    match error
    case Success => count == |data| && attr' == grown && m' == whole[Dentry(path) := DentryRec(grown)]
    case EINVAL => count == |data| && attr' == grown && m' == whole
    case EIO => attr' == attr && RangeWritten(m, attr.ino, off, data, |data|, garbage, m', count, EIO)
    case _ => false
  }

  ghost predicate SetSizeOutcome(m: Tree, path: CString, attr: Attr, size: nat, m': Tree, attr': Attr, error: Err) {
    && attr' == attr.(size := size)
    && (error == Success || error == EINVAL)
    && m' == if error == Success then m[Dentry(path) := DentryRec(attr')] else m
  }

  /** What a reader of the flat byte sequence c expects. */
  function FlatRead(c: seq<Byte>, off: nat, n: nat): seq<Byte> {
    if off <= |c| then c[off..Min(off + n, |c|)] else []
  }

  /** On a file without holes, with no I/O failure, dbfs_read returns the slice of the contents exactly when the
      offset is not past the end (or nothing was asked for). */
  lemma ReadIsSlice(m: Tree, attr: Attr, n: nat, off: nat, buf0: seq<Byte>, buf1: seq<Byte>, count: nat, error: Err)
    requires n <= |buf0| && ReadOutcome(m, attr, n, off, buf0, buf1, count, error) && error != EIO
    requires Dense(m, attr.ino, attr.size)
    ensures var slice := FlatRead(BytesAt(m, attr.ino, 0, attr.size), off, n);
            (error == Success && count == |slice| && buf1 == slice + buf0[|slice|..]) <==> off <= attr.size || n == 0
  {
    if off <= attr.size {
      var len := Min(n, attr.size - off);
      assert BytesAt(m, attr.ino, off, len) == FlatRead(BytesAt(m, attr.ino, 0, attr.size), off, n);
    }
  }

  method Read(dh: DbfsHandle, buf: array<Byte>, n: SizeT, offset: OffT) returns (count: SizeT, error: Err)
    requires 0 <= offset && n < TWO63 && n <= buf.Length && dh.attr.size < TWO63
    modifies dh.dbp, buf
    ensures dh.dbp.recs == old(dh.dbp.recs)
    ensures ReadOutcome(dh.dbp.recs, dh.attr, n, offset, old(buf[..]), buf[..], count, error)
    ensures dh.dbp.reliable ==> error != EIO
  {
    if offset > dh.attr.size {
      return n, Success;
    }
    var size: SizeT := n;
    if offset + size > dh.attr.size {
      size := dh.attr.size - offset;
    }
    ghost var visited;
    count, error, visited := ReadWrite(dh.dbp, dh.attr.ino, buf, size, offset, true, _ => seq(BLKSIZE, _ => 0));
  }

  method Write(dh: DbfsHandle, buf: array<Byte>, n: SizeT, offset: OffT, garbage: Garbage) returns (count: SizeT, error: Err)
    requires 0 <= offset && n <= buf.Length && offset + n < TWO63
    modifies dh, dh.dbp, buf
    ensures buf[..] == old(buf[..])
    ensures WriteOutcome(old(dh.dbp.recs), dh.locator, old(dh.attr), offset, buf[..n], garbage,
                         dh.dbp.recs, dh.attr, count, error)
    ensures dh.dbp.reliable ==> error == Success
  {
    ghost var visited;
    count, error, visited := ReadWrite(dh.dbp, dh.attr.ino, buf, n, offset, false, garbage);
    assert buf[..][..count] == buf[..n][..count];
    assert count == n ==> buf[..n][..count] == buf[..n];
    if error != Success {
      return;
    }
    if dh.attr.size < offset + count {
      dh.attr := dh.attr.(size := offset + count);
    }
    error := WriteAttr(dh.dbp, dh.locator, dh.attr);
  }

  /** dbfs_setsize: shrinking deletes no block and always returns, since a call that shrinks never has end == offset. */
  method SetSize(dh: DbfsHandle, size: OffT, budget: nat) returns (returned: bool, error: Err)
    requires dh.attr.size < TWO63
    modifies dh, dh.dbp
    ensures returned
    ensures SetSizeOutcome(old(dh.dbp.recs), dh.locator, old(dh.attr), U64(size), dh.dbp.recs, dh.attr, error)
    ensures dh.dbp.reliable ==> error == Success
  {
    returned := true;
    if dh.attr.size > U64(size) {
      returned, error := TruncateBlocks(dh.dbp, dh.attr.ino, size, dh.attr.size, budget);
      if !returned || error != Success {
        return;
      }
    }
    dh.attr := dh.attr.(size := U64(size));
    error := WriteAttr(dh.dbp, dh.locator, dh.attr);
  }

  /** dbfs_dels: a file of size above zero keeps all its blocks; an empty one is never done. */
  method DelS(dh: DbfsHandle, budget: nat) returns (returned: bool, error: Err)
    requires dh.attr.size < TWO63
    modifies dh.dbp
    ensures dh.attr.size > 0 ==> returned && error == Success && dh.dbp.recs == old(dh.dbp.recs)
    ensures dh.attr.size == 0 ==> (returned <==> error == EIO)
    ensures dh.attr.size == 0 && dh.dbp.reliable ==> !returned
    ensures !returned && budget > 0 ==> Block(dh.attr.ino, 0) !in dh.dbp.recs
    ensures dh.attr.size == 0 ==>
      dh.dbp.recs == old(dh.dbp.recs) || dh.dbp.recs == old(dh.dbp.recs) - {Block(dh.attr.ino, 0)}
  {
    returned, error := TruncateBlocks(dh.dbp, dh.attr.ino, 0, dh.attr.size, budget);
  }

  /** dbfs_dels over the `while(size)` loop: no block below the size is left, and no other inode is touched. */
  method DelSWhileSize(dh: DbfsHandle) returns (error: Err)
    requires dh.attr.size < TWO63
    modifies dh.dbp
    ensures dh.dbp.reliable ==> error != EIO
    ensures error != EIO ==> dh.dbp.recs == Truncated(old(dh.dbp.recs), dh.attr.ino, 0, dh.attr.size)
    ensures forall k: Key :: !(k.Block? && k.ino == dh.attr.ino) ==>
      (k in dh.dbp.recs <==> k in old(dh.dbp.recs)) && (k in dh.dbp.recs ==> dh.dbp.recs[k] == old(dh.dbp.recs)[k])
    ensures error == Success || error == DbNotFound ==>
      forall i: nat :: i < dh.attr.size ==> !HasByte(dh.dbp.recs, dh.attr.ino, i)
  {
    ghost var done;
    error, done := TruncateBlocksWhileSize(dh.dbp, dh.attr.ino, 0, dh.attr.size);
  }
}
