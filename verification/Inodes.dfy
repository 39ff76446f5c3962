/** What the inode numbers promise, for runs that keep only the rules the numbers need: any paths, any parents, any
    handles, any byte ranges, and deletes that remove whatever key their buffer was left with. */
module Inodes {
  import opened CStrings
  import opened Keys
  import opened Store
  import opened Blocks
  import opened Stream
  import opened Directory
  import opened Dbfs
  import opened System
  import F = FlatFs

  /** At most 1000 create calls follow a mount, and the stored counter does not wrap. */
  ghost predicate CountRules(s: Sys, op: F.Op) {
    match op
    case Mount => FsInfo in s.db ==> s.db[FsInfo].lastIno + 1000 < TWO64
    case Create(_, _, _) => s.creates < 1000
    case _ => true
  }

  ghost predicate CountedRun(ss: seq<Sys>, ops: seq<F.Op>, rs: seq<F.Res>) {
    Trace(ss, ops, rs) && forall i :: 0 <= i < |ops| ==> CountRules(ss[i], ops[i])
  }

  ghost predicate StreamRule(s: Sys, op: F.Op) {
    op.Open? && Dentry(op.path) in s.db ==> HasKind(s.db, op.path, Data)
  }

  /** Streams are opened on data entries only. */
  ghost predicate StreamsOnData(ss: seq<Sys>, ops: seq<F.Op>)
    requires |ss| == |ops| + 1
  {
    forall i :: 0 <= i < |ops| ==> StreamRule(ss[i], ops[i])
  }

  // The counter

  /** What a mount may still hand out is what it reserved, as long as the counter record is there. */
  ghost predicate Counting(s: Sys) {
    && (s.mounted ==> s.creates <= BATCH && s.last + BATCH < TWO64 + s.creates)
    && (FsInfo in s.db ==>
          && s.db[FsInfo].lastIno < TWO64
          && (s.mounted ==> s.last + BATCH == s.db[FsInfo].lastIno + s.creates))
  }

  /** The number n will never be handed out again. */
  ghost predicate Below(s: Sys, n: nat) {
    && (s.mounted ==> n < s.last)
    && (FsInfo in s.db ==> n < s.db[FsInfo].lastIno)
  }

  /** Calls other than a mount leave the counter record alone, or a delete takes it away. */
  lemma CounterFrame(s: Sys, op: F.Op, res: F.Res, s': Sys)
    requires Next(s, op, res, s') && !op.Mount?
    ensures FsInfo in s'.db ==> FsInfo in s.db && s'.db[FsInfo] == s.db[FsInfo]
  {
    hide Written, HasExtension;
    if op.Write? {
      WriteOutside(s, op, res, s');
    }
  }

  /** A write changes its own entry and the blocks of its handle's inode. */
  lemma WriteOutside(s: Sys, op: F.Op, res: F.Res, s': Sys)
    requires op.Write? && Next(s, op, res, s')
    ensures forall k: Key :: k != Dentry(op.path) && !(k.Block? && k.ino == s.open[op.path].ino) ==>
              (k in s'.db <==> k in s.db) && (k in s.db ==> s'.db[k] == s.db[k])
    ensures s'.open[op.path].ino == s.open[op.path].ino
    ensures Dentry(op.path) in s.db ==> Dentry(op.path) in s'.db
    ensures Dentry(op.path) in s'.db ==>
              || s'.db[Dentry(op.path)] == DentryRec(s'.open[op.path])
              || (Dentry(op.path) in s.db && s'.db[Dentry(op.path)] == s.db[Dentry(op.path)])
  {
    hide Written;
    var p, attr := op.path, s.open[op.path];
    var garbage :| WriteOutcome(s.db, p, attr, op.off, op.data, garbage, s'.db, s'.open[p], res.count, res.error);
    WrittenOutside(s.db, attr.ino, op.off, op.data[..res.count], garbage);
    WrittenOutside(s.db, attr.ino, op.off, op.data, garbage);
  }

  lemma CountStep(s: Sys, op: F.Op, res: F.Res, s': Sys)
    requires Counting(s) && CountRules(s, op) && Next(s, op, res, s')
    ensures Counting(s') && forall n: nat :: Below(s, n) ==> Below(s', n)
    ensures op.Create? ==> Below(s', s.last)
  {
    hide DeleteOutcome, WriteOutcome, SetSizeOutcome, OpenOutcome, ReadOutcome;
    if !op.Mount? {
      CounterFrame(s, op, res, s');
    }
  }

  lemma {:induction false} CountsAlong(ss: seq<Sys>, ops: seq<F.Op>, rs: seq<F.Res>, i: nat, j: nat, n: nat)
    requires CountedRun(ss, ops, rs) && i <= j <= |ops|
    ensures Counting(ss[j]) && (Below(ss[i], n) ==> Below(ss[j], n))
    decreases j
  {
    hide Counting, Below, CountRules, Next;
    if j == 0 {
      FreshCounts();
    } else {
      CountsAlong(ss, ops, rs, if i < j then i else j - 1, j - 1, n);
      CountStep(ss[j - 1], ops[j - 1], rs[j - 1], ss[j]);
    }
  }

  lemma FreshCounts()
    ensures Counting(Fresh())
  {
  }

  predicate Created(ops: seq<F.Op>, rs: seq<F.Res>, i: nat)
    requires i < |ops| == |rs|
  {
    ops[i].Create? && rs[i] == F.Done(Success)
  }

  /** The inode that a successful create stored. */
  lemma CreatedInode(s: Sys, op: F.Op, s': Sys)
    requires op.Create? && Next(s, op, F.Done(Success), s')
    ensures s.mounted && Dentry(op.path) in s'.db && InoOf(s'.db, op.path) == s.last
  {
  }

  /** No two entries created in a run get the same inode, whether or not the first still exists, across mounts, and
      although failed calls use up numbers too. */
  lemma InodesNeverReused(ss: seq<Sys>, ops: seq<F.Op>, rs: seq<F.Res>, i: nat, j: nat)
    requires CountedRun(ss, ops, rs) && i < j < |ops| && Created(ops, rs, i) && Created(ops, rs, j)
    ensures Dentry(ops[i].path) in ss[i + 1].db && Dentry(ops[j].path) in ss[j + 1].db
    ensures InoOf(ss[i + 1].db, ops[i].path) < InoOf(ss[j + 1].db, ops[j].path)
  {
    hide Counting, CountRules, Next;
    CreatedInode(ss[i], ops[i], ss[i + 1]);
    CreatedInode(ss[j], ops[j], ss[j + 1]);
    CountsAlong(ss, ops, rs, i, i, 0);
    CountStep(ss[i], ops[i], rs[i], ss[i + 1]);
    CountsAlong(ss, ops, rs, i + 1, j, ss[i].last);
  }

  // Who uses a number

  /** n is the inode of the file stored at p or of the handle open on it. */
  ghost predicate Owns(s: Sys, p: CString, n: nat) {
    || (HasKind(s.db, p, Data) && InoOf(s.db, p) == n)
    || (p in s.open && s.open[p].ino == n)
  }

  /** Numbers in use by files, handles and blocks are never handed out again, and no two paths use the same one. */
  ghost predicate Owning(s: Sys) {
    && (forall p, n :: Owns(s, p, n) ==> Below(s, n))
    && (forall p, q, n :: Owns(s, p, n) && Owns(s, q, n) ==> p == q)
    && (forall k :: k in s.db && k.Block? ==> Below(s, k.ino))
  }

  /** A call brings a number into use only by creating an entry with the counter's own. */
  lemma OwnersFrame(s: Sys, op: F.Op, res: F.Res, s': Sys, p: CString, n: nat)
    requires Next(s, op, res, s') && StreamRule(s, op) && Owns(s', p, n)
    ensures Owns(s, p, n) || (op.Create? && p == op.path && n == s.last)
  {
    hide Written, HasExtension, ReadOutcome;
    if op.Write? {
      WriteOutside(s, op, res, s');
    }
  }

  /** New blocks belong to the inode of the handle that wrote them. */
  lemma BlocksFrame(s: Sys, op: F.Op, res: F.Res, s': Sys, k: Key)
    requires Next(s, op, res, s') && k in s'.db && k.Block?
    ensures k in s.db || (op.Write? && op.path in s.open && k.ino == s.open[op.path].ino)
  {
    hide Written, HasExtension, ReadOutcome;
    if op.Write? {
      WriteOutside(s, op, res, s');
    }
  }

  lemma OwningStep(s: Sys, op: F.Op, res: F.Res, s': Sys)
    requires Counting(s) && Owning(s) && CountRules(s, op) && StreamRule(s, op) && Next(s, op, res, s')
    ensures Owning(s')
  {
    hide Below, Counting, CountRules, StreamRule, Next, Owns;
    CountStep(s, op, res, s');
    forall p, n | Owns(s', p, n) ensures Owns(s, p, n) || (op.Create? && p == op.path && n == s.last) {
      OwnersFrame(s, op, res, s', p, n);
    }
    forall k | k in s'.db && k.Block? ensures Below(s', k.ino) {
      BlocksFrame(s, op, res, s', k);
      if k !in s.db {
        HandleOwns(s, op.path);
      }
    }
    if op.Create? {
      LastIsUnowned(s, op, res, s');
    }
  }

  lemma HandleOwns(s: Sys, p: CString)
    requires p in s.open
    ensures Owns(s, p, s.open[p].ino)
  {
  }

  lemma LastIsUnowned(s: Sys, op: F.Op, res: F.Res, s': Sys)
    requires op.Create? && Owning(s) && Next(s, op, res, s')
    ensures !Below(s, s.last) && forall p :: !Owns(s, p, s.last)
  {
    hide Owns;
  }

  lemma {:induction false} OwningAlong(ss: seq<Sys>, ops: seq<F.Op>, rs: seq<F.Res>, i: nat)
    requires CountedRun(ss, ops, rs) && StreamsOnData(ss, ops) && i <= |ops|
    ensures Counting(ss[i]) && Owning(ss[i])
  {
    hide Counting, Owning, CountRules, StreamRule, Next;
    CountsAlong(ss, ops, rs, i, i, 0);
    if i == 0 {
      FreshOwns();
    } else {
      OwningAlong(ss, ops, rs, i - 1);
      OwningStep(ss[i - 1], ops[i - 1], rs[i - 1], ss[i]);
    }
  }

  lemma FreshOwns()
    ensures Owning(Fresh())
  {
  }

  /** An entry that has just been created has no blocks under its inode, although deleted files leave theirs in the
      tree. */
  lemma NewFileIsBlank(ss: seq<Sys>, ops: seq<F.Op>, rs: seq<F.Res>, i: nat, o: nat)
    requires CountedRun(ss, ops, rs) && StreamsOnData(ss, ops) && i < |ops| && Created(ops, rs, i)
    ensures Dentry(ops[i].path) in ss[i + 1].db
    ensures !HasByte(ss[i + 1].db, InoOf(ss[i + 1].db, ops[i].path), o)
  {
    OwningAlong(ss, ops, rs, i);
    assert CountRules(ss[i], ops[i]) && Next(ss[i], ops[i], rs[i], ss[i + 1]);
    CreatedInode(ss[i], ops[i], ss[i + 1]);
    BlankUnderLast(ss[i], ops[i], rs[i], ss[i + 1], o);
  }

  lemma BlankUnderLast(s: Sys, op: F.Op, res: F.Res, s': Sys, o: nat)
    requires op.Create? && Owning(s) && Next(s, op, res, s')
    ensures !HasByte(s'.db, s.last, o)
  {
    LastIsUnowned(s, op, res, s');
    if HasByte(s'.db, s.last, o) {
      BlocksFrame(s, op, res, s', Block(s.last, Floor(o)));
    }
  }

  // Isolation

  predicate Mentions(op: F.Op, q: CString) {
    match op
    case Mount => false
    case Unmount => false
    case _ => op.path == q
  }

  /** The record and the blocks of a file are the same in two trees. */
  ghost predicate FileKept(m: Tree, m': Tree, q: CString)
    requires Dentry(q) in m
  {
    Dentry(q) in m' && m'[Dentry(q)] == m[Dentry(q)] && SameFile(m, m', InoOf(m, q))
  }

  lemma KeptBytes(m: Tree, m': Tree, q: CString, o: nat)
    requires Dentry(q) in m && FileKept(m, m', q)
    ensures HasByte(m', InoOf(m, q), o) <==> HasByte(m, InoOf(m, q), o)
    ensures ByteAt(m', InoOf(m, q), o) == ByteAt(m, InoOf(m, q), o)
  {
  }

  /** The key of a file's entry, or of one of its blocks. */
  ghost predicate BelongsTo(m: Tree, q: CString, k: Key)
    requires Dentry(q) in m
  {
    k == Dentry(q) || (k.Block? && k.ino == InoOf(m, q))
  }

  /** A delete that does not name a file, with any key left in its buffer, keeps the file's record and blocks exactly
      when the key it removes is not the file's entry and not one of its blocks. */
  lemma DeleteIsolates(s: Sys, p: CString, left: Key, m': Tree, outcome: Outcome, q: CString)
    requires Owning(s) && p != q && HasKind(s.db, q, Data) && DeleteOutcome(s.db, p, left, m', outcome)
    ensures var gone := KeyLeft(s.db, p, left);
            FileKept(s.db, m', q) <==>
              !(outcome == Returned(Success) && BelongsTo(s.db, q, gone))
  {
    hide HasExtension, HasSuccessor;
    var gone := KeyLeft(s.db, p, left);
    if HasKind(s.db, p, Data) {
      assert Owns(s, p, InoOf(s.db, p)) && Owns(s, q, InoOf(s.db, q));
    }
    if outcome == Returned(Success) && gone.Block? && gone.ino == InoOf(s.db, q) {
      assert Block(gone.ino, gone.off) in s.db && Block(gone.ino, gone.off) !in m';
    }
  }

  /** The key that a call removes by deleting it: none but a successful delete has one. */
  ghost predicate Removes(s: Sys, op: F.Op, res: F.Res, k: Key) {
    op.Delete? && res.Deleted? && res.returned && res.error == Success && k == KeyLeft(s.db, op.path, op.left)
  }

  lemma StepIsolates(s: Sys, op: F.Op, res: F.Res, s': Sys, q: CString)
    requires Owning(s) && Next(s, op, res, s') && !Mentions(op, q) && HasKind(s.db, q, Data)
    ensures FileKept(s.db, s'.db, q) <==> !exists k :: Removes(s, op, res, k) && BelongsTo(s.db, q, k)
  {
    hide Owning, HasExtension, HasSuccessor, KeyLeft, Written, ReadOutcome;
    if op.Write? {
      WriteOutside(s, op, res, s');
      HandlesApart(s, op.path, q);
    } else if op.Delete? {
      hide FileKept;
      DeleteIsolates(s, op.path, op.left, s'.db, if res.returned then Returned(res.error) else Looping, q);
      var k := KeyLeft(s.db, op.path, op.left);
      assert res.returned && res.error == Success ==> Removes(s, op, res, k);
    }
  }

  lemma HandlesApart(s: Sys, p: CString, q: CString)
    requires Owning(s) && p != q && p in s.open && HasKind(s.db, q, Data)
    ensures s.open[p].ino != InoOf(s.db, q)
  {
    assert Owns(s, p, s.open[p].ino) && Owns(s, q, InoOf(s.db, q));
  }

  /** A call that does not name a file keeps its record and its blocks, exactly unless it is a delete that goes by a key
      of that file in its buffer; and then also every byte. */
  lemma FilesAreIsolated(ss: seq<Sys>, ops: seq<F.Op>, rs: seq<F.Res>, i: nat, q: CString, o: nat)
    requires CountedRun(ss, ops, rs) && StreamsOnData(ss, ops) && i < |ops|
    requires !Mentions(ops[i], q) && HasKind(ss[i].db, q, Data)
    ensures FileKept(ss[i].db, ss[i + 1].db, q)
       <==> !exists k :: Removes(ss[i], ops[i], rs[i], k) && BelongsTo(ss[i].db, q, k)
    ensures FileKept(ss[i].db, ss[i + 1].db, q) ==>
              var ino := InoOf(ss[i].db, q);
              && (HasByte(ss[i + 1].db, ino, o) <==> HasByte(ss[i].db, ino, o))
              && ByteAt(ss[i + 1].db, ino, o) == ByteAt(ss[i].db, ino, o)
  {
    hide FileKept;
    OwningAlong(ss, ops, rs, i);
    assert CountRules(ss[i], ops[i]) && Next(ss[i], ops[i], rs[i], ss[i + 1]);
    StepIsolates(ss[i], ops[i], rs[i], ss[i + 1], q);
    if FileKept(ss[i].db, ss[i + 1].db, q) {
      KeptBytes(ss[i].db, ss[i + 1].db, q, o);
    }
  }
}
