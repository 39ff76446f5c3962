/** What holds in every state that a run of dbfs can reach. */
module Runs {
  import opened CStrings
  import opened Keys
  import opened Store
  import opened Paths
  import opened Blocks
  import opened Stream
  import opened Directory
  import opened Dbfs
  import opened System
  import I = Inodes
  import F = FlatFs

  const A_FILE: CString := [SLASH, 97]
  const B_FILE: CString := [SLASH, 98]

  /** A run from the store that mkdbfs made, by callers who keep the rules. */
  ghost predicate Run(ss: seq<Sys>, ops: seq<F.Op>, rs: seq<F.Res>) {
    Trace(ss, ops, rs) && forall i :: 0 <= i < |ops| ==> Rules(ss[i], ops[i])
  }

  /** The flat file system after i calls. */
  ghost function Model(ops: seq<F.Op>, rs: seq<F.Res>, i: nat): F.Fs
    requires i <= |ops| == |rs|
  {
    if i == 0 then F.EMPTY else F.Apply(Model(ops, rs, i - 1), ops[i - 1], rs[i - 1])
  }

  lemma Step(s: Sys, a: F.Fs, op: F.Op, res: F.Res, s': Sys)
    requires Refines(s, a) && Rules(s, op) && Next(s, op, res, s')
    ensures F.Allowed(a, op, res) && Refines(s', F.Apply(a, op, res)) && Bound(s) <= Bound(s')
    ensures op.Create? ==> Bound(s) == s.last && Bound(s') == Bound(s) + 1
  {
    hide Refines, F.Apply, Rules;
    match op
    case Mount => MountStep(s, a, res, s');
    case Unmount => UnmountStep(s, a, res, s');
    case Create(_, _, _) => CreateStep(s, a, op, res, s');
    case Delete(_, _) => DeleteStep(s, a, op, res, s');
    case Open(_) => OpenStep(s, a, op, res, s');
    case Close(_) => CloseStep(s, a, op, res, s');
    case Write(_, _, _) => WriteStep(s, a, op, res, s');
    case Read(_, _, _, _) => ReadStep(s, a, op, res, s');
    case SetSize(_, _) => SetSizeStep(s, a, op, res, s');
  }

  /** dbfs refines the flat file system: at every point of every run the store agrees with it, and every call returns
      only what it allows. */
  lemma {:induction false} RunRefines(ss: seq<Sys>, ops: seq<F.Op>, rs: seq<F.Res>, i: nat)
    requires Run(ss, ops, rs) && i <= |ops|
    ensures Refines(ss[i], Model(ops, rs, i))
    ensures i < |ops| ==> F.Allowed(Model(ops, rs, i), ops[i], rs[i])
  {
    hide Refines, Rules, Next, F.Apply, F.Allowed;
    if i == 0 {
      FreshRefines();
    } else {
      RunRefines(ss, ops, rs, i - 1);
      Step(ss[i - 1], Model(ops, rs, i - 1), ops[i - 1], rs[i - 1], ss[i]);
    }
    if i < |ops| {
      Step(ss[i], Model(ops, rs, i), ops[i], rs[i], ss[i + 1]);
    }
  }

  /** A run keeps the weaker rules of Inodes as well. */
  lemma RunsAreCounted(ss: seq<Sys>, ops: seq<F.Op>, rs: seq<F.Res>)
    requires Run(ss, ops, rs)
    ensures I.CountedRun(ss, ops, rs) && I.StreamsOnData(ss, ops)
  {
    hide Next;
  }

  // Calls without failures

  /** A call on a reliable map returns just what the flat file system's state decides. */
  lemma FaultlessStep(s: Sys, a: F.Fs, op: F.Op, res: F.Res, s': Sys)
    requires Refines(s, a) && Rules(s, op) && Next(s, op, res, s') && NoFault(s, op, res)
    ensures F.Faultless(a, op, res)
  {
    hide InodeInv, Contents, Lost, Written, F.IsBareDir, DeleteOutcome;
    if op.Delete? {
      FaultlessDelete(s, a, op, res, s');
    } else if !op.Mount? && !op.Unmount? {
      NodeOf(s.db, a.nodes, op.path);
    }
  }

  lemma FaultlessDelete(s: Sys, a: F.Fs, op: F.Op, res: F.Res, s': Sys)
    requires op.Delete? && Refines(s, a) && Next(s, op, res, s') && NoFault(s, op, res)
    ensures F.Faultless(a, op, res)
  {
    hide InodeInv, Contents, Handles, Names, Lost, HasExtension, HasSuccessor, F.IsBareDir;
    NodeOf(s.db, a.nodes, op.path);
    BareIsUnextended(s.db, a.nodes, op.path);
  }

  lemma BareIsUnextended(m: Tree, nodes: map<CString, F.Node>, p: CString)
    requires Names(m, nodes)
    ensures F.IsBareDir(nodes, p) <==> HasKind(m, p, Container) && !HasExtension(m, p)
  {
    hide HasExtension;
    ExtensionsAreNodes(m, nodes, p);
    NodeOf(m, nodes, p);
  }

  lemma FaultlessCalls(ss: seq<Sys>, ops: seq<F.Op>, rs: seq<F.Res>, i: nat)
    requires Run(ss, ops, rs) && i < |ops| && NoFault(ss[i], ops[i], rs[i])
    ensures F.Faultless(Model(ops, rs, i), ops[i], rs[i])
  {
    hide Refines, Rules, Next, NoFault, F.Faultless;
    RunRefines(ss, ops, rs, i);
    FaultlessStep(ss[i], Model(ops, rs, i), ops[i], rs[i], ss[i + 1]);
  }

  // Records

  /** A create stores the kind and the mode that it was given, the next number and size 0; for other calls a record that
      is stored before and after has kept everything but its size. */
  lemma RecordKept(ss: seq<Sys>, ops: seq<F.Op>, rs: seq<F.Res>, i: nat, p: CString)
    requires Run(ss, ops, rs) && i < |ops|
    ensures ops[i].Create? && rs[i] == F.Done(Success) && p == ops[i].path ==>
              && Dentry(p) !in ss[i].db && Dentry(p) in ss[i + 1].db
              && ss[i + 1].db[Dentry(p)] == DentryRec(Attr(ops[i].kind, ops[i].mode, ss[i].last, 0))
    ensures Dentry(p) in ss[i].db && Dentry(p) in ss[i + 1].db ==>
              var attr, attr' := ss[i].db[Dentry(p)].attr, ss[i + 1].db[Dentry(p)].attr;
              attr'.kind == attr.kind && attr'.mode == attr.mode && attr'.ino == attr.ino
  {
    hide Rules, Refines;
    RunRefines(ss, ops, rs, i);
    if Dentry(p) in ss[i].db && Dentry(p) in ss[i + 1].db {
      RecordStep(ss[i], Model(ops, rs, i), ops[i], rs[i], ss[i + 1], p);
    }
  }

  lemma RecordStep(s: Sys, a: F.Fs, op: F.Op, res: F.Res, s': Sys, p: CString)
    requires Refines(s, a) && Next(s, op, res, s') && Dentry(p) in s.db && Dentry(p) in s'.db
    ensures s'.db[Dentry(p)].attr == s.db[Dentry(p)].attr.(size := s'.db[Dentry(p)].attr.size)
  {
    hide InodeInv, Contents, Names, Written, HasExtension, HasSuccessor, ReadOutcome;
    if op.Write? {
      HandleOf(s.db, s.open, a.sizes, op.path);
      I.WriteOutside(s, op, res, s');
    } else if op.SetSize? {
      HandleOf(s.db, s.open, a.sizes, op.path);
    }
  }

  // Shapes

  ghost predicate BlocksAligned(m: Tree) {
    forall k :: k in m && k.Block? ==> k.off % 4096 == 0
  }

  lemma AlignedStep(s: Sys, op: F.Op, res: F.Res, s': Sys)
    requires BlocksAligned(s.db) && Next(s, op, res, s')
    ensures BlocksAligned(s'.db)
  {
    hide HasExtension, HasSuccessor, ReadOutcome;
  }

  /** Whatever the calls, every block is stored under an aligned offset. */
  lemma {:induction false} BlocksStayAligned(ss: seq<Sys>, ops: seq<F.Op>, rs: seq<F.Res>, i: nat)
    requires Trace(ss, ops, rs) && i <= |ops|
    ensures BlocksAligned(ss[i].db)
  {
    hide Next;
    if i > 0 {
      BlocksStayAligned(ss, ops, rs, i - 1);
      AlignedStep(ss[i - 1], ops[i - 1], rs[i - 1], ss[i]);
    }
  }

  ghost predicate SizeRules(op: F.Op) {
    match op
    case Write(_, off, data) => off + |data| < 0x8000_0000_0000_0000
    case SetSize(_, size) => size < 0x8000_0000_0000_0000
    case _ => true
  }

  ghost predicate AllSizesFit(s: Sys) {
    && (forall p :: Dentry(p) in s.db ==> s.db[Dentry(p)].attr.size < 0x8000_0000_0000_0000)
    && forall p :: p in s.open ==> s.open[p].size < 0x8000_0000_0000_0000
  }

  lemma SizesStep(s: Sys, op: F.Op, res: F.Res, s': Sys)
    requires AllSizesFit(s) && SizeRules(op) && Next(s, op, res, s')
    ensures AllSizesFit(s')
  {
    hide HasExtension, HasSuccessor, ReadOutcome, Written;
    if op.Write? {
      var p, attr := op.path, s.open[op.path];
      var garbage :| WriteOutcome(s.db, p, attr, op.off, op.data, garbage, s'.db, s'.open[p], res.count, res.error);
      WrittenOutside(s.db, attr.ino, op.off, op.data[..res.count], garbage);
      WrittenOutside(s.db, attr.ino, op.off, op.data, garbage);
    }
  }

  /** While the callers write and size below 2^63, all sizes stay below it, in the tree and in the handles. */
  lemma {:induction false} SizesStayBelow(ss: seq<Sys>, ops: seq<F.Op>, rs: seq<F.Res>, i: nat)
    requires Trace(ss, ops, rs) && i <= |ops| && forall op :: op in ops ==> SizeRules(op)
    ensures AllSizesFit(ss[i]) && SizesFit(ss[i].db)
  {
    hide Next, SizeRules;
    if i > 0 {
      SizesStayBelow(ss, ops, rs, i - 1);
      SizesStep(ss[i - 1], ops[i - 1], rs[i - 1], ss[i]);
    }
  }

  // The batch

  ghost predicate CreateCall(s: Sys, s': Sys) {
    exists op: F.Op, res :: op.Create? && Next(s, op, res, s')
  }

  /** k create calls on one mount, whatever each returned. */
  ghost predicate CreateCalls(ss: seq<Sys>, k: nat) {
    |ss| == k + 1 && forall i :: 0 <= i < k ==> CreateCall(ss[i], ss[i + 1])
  }

  lemma {:induction false} CreateCallsCount(ss: seq<Sys>, k: nat, i: nat)
    requires CreateCalls(ss, k) && i <= k && ss[0].last + k < TWO64 && FsInfo in ss[0].db
    ensures ss[i].last == ss[0].last + i
    ensures FsInfo in ss[i].db && ss[i].db[FsInfo] == ss[0].db[FsInfo]
  {
    if i > 0 {
      CreateCallsCount(ss, k, i - 1);
      assert CreateCall(ss[i - 1], ss[i - 1 + 1]);
    }
  }

  /** The first mount of a new store hands out 1 first and leaves the counter at 1001. */
  lemma FirstMount(s: Sys)
    requires Next(Fresh(), F.Mount, F.Done(Success), s)
    ensures s.last == 1 && s.db == Fresh().db[FsInfo := FsInfoRec(1001)]
  {
  }

  /** A mount hands out the stored number first and leaves the counter 1000 higher. */
  lemma MountReserves(s: Sys, s': Sys)
    requires Next(s, F.Mount, F.Done(Success), s')
    requires FsInfo in s.db ==> s.db[FsInfo].lastIno + 1000 < 0x1_0000_0000_0000_0000
    ensures FsInfo in s.db && s'.last == s.db[FsInfo].lastIno && s'.open == map[]
    ensures s'.db == s.db[FsInfo := FsInfoRec(s.db[FsInfo].lastIno + 1000)]
  {
  }

  /** The bound of 1000 create calls is tight: after k calls on a mount, the number that the first create of the next
      mount will use was already used by one of them exactly when k is above 1000. */
  lemma BatchIsTight(before: Sys, m1: F.Res, ss: seq<Sys>, k: nat, closed: Sys, m2: F.Res, next: Sys)
    requires CreateCalls(ss, k)
    requires Next(before, F.Mount, m1, ss[0]) && m1 == F.Done(Success)
    requires ss[0].last + k < TWO64 && ss[0].last + 1000 < TWO64
    requires Next(ss[k], F.Unmount, F.Done(Success), closed)
    requires Next(closed, F.Mount, m2, next) && m2 == F.Done(Success)
    ensures (exists i :: 0 <= i < k && ss[i].last == next.last) <==> k > 1000
  {
    forall i: nat | i <= k ensures ss[i].last == ss[0].last + i {
      CreateCallsCount(ss, k, i);
    }
    CreateCallsCount(ss, k, k);
    assert next.last == ss[0].last + 1000;
    if k > 1000 {
      assert ss[1000].last == next.last;
    }
  }

  /** Create calls keep what is stored. */
  lemma {:induction false} CreateCallsKeep(ss: seq<Sys>, k: nat, i: nat, j: nat, key: Key)
    requires CreateCalls(ss, k) && i <= j <= k && key in ss[i].db
    ensures key in ss[j].db && ss[j].db[key] == ss[i].db[key]
    decreases j
  {
    if i < j {
      CreateCallsKeep(ss, k, i, j - 1, key);
      assert CreateCall(ss[j - 1], ss[j - 1 + 1]);
    }
  }

  /** What the bound protects from: when a mount makes more than 1000 create calls and the first one beyond it stores
      a file, the first file of the next mount gets the same inode while the other still lives, and what is written to
      the new file is then read from the old one. */
  lemma CollidingFiles(before: Sys, ss: seq<Sys>, k: nat, p: CString, mode1: nat, closed: Sys, next: Sys,
                       q: CString, mode2: nat, both: Sys, shared: Sys, written: Sys,
                       off: nat, data: seq<Byte>, count: nat, i: nat)
    requires CreateCalls(ss, k) && k > 1000 && ss[0].last + k < TWO64
    requires Next(before, F.Mount, F.Done(Success), ss[0])
    requires Next(ss[1000], F.Create(p, Data, mode1), F.Done(Success), ss[1001])
    requires Next(ss[k], F.Unmount, F.Done(Success), closed) && Next(closed, F.Mount, F.Done(Success), next)
    requires Next(next, F.Create(q, Data, mode2), F.Done(Success), both)
    requires Next(both, F.Open(q), F.Done(Success), shared)
    requires Next(shared, F.Write(q, off, data), F.Moved(count, Success), written)
    requires off <= i < off + |data|
    ensures p != q && HasKind(both.db, p, Data) && HasKind(both.db, q, Data)
    ensures InoOf(both.db, p) == InoOf(both.db, q)
    ensures HasKind(written.db, p, Data) && ByteAt(written.db, InoOf(written.db, p), i) == data[i - off]
  {
    hide Next, CreateCalls, ByteAt;
    TwoWithOneInode(before, ss, k, p, mode1, closed, next, q, mode2, both);
    WriteIsShared(both, p, q, shared, off, data, count, written, i);
  }

  lemma WriteIsShared(both: Sys, p: CString, q: CString, shared: Sys, off: nat, data: seq<Byte>, count: nat,
                      written: Sys, i: nat)
    requires p != q && HasKind(both.db, p, Data) && HasKind(both.db, q, Data) && InoOf(both.db, p) == InoOf(both.db, q)
    requires Next(both, F.Open(q), F.Done(Success), shared)
    requires Next(shared, F.Write(q, off, data), F.Moved(count, Success), written)
    requires off <= i < off + |data|
    ensures HasKind(written.db, p, Data) && ByteAt(written.db, InoOf(written.db, p), i) == data[i - off]
  {
    hide Written;
    var attr := shared.open[q];
    assert shared.db == both.db && attr == both.db[Dentry(q)].attr;
    var garbage :| WriteOutcome(shared.db, q, attr, off, data, garbage, written.db, written.open[q], count, Success);
    WriteFrame(both.db, attr.ino, off, data, garbage, i);
    WrittenOutside(both.db, attr.ino, off, data, garbage);
  }

  lemma TwoWithOneInode(before: Sys, ss: seq<Sys>, k: nat, p: CString, mode1: nat, closed: Sys, next: Sys,
                        q: CString, mode2: nat, both: Sys)
    requires CreateCalls(ss, k) && k > 1000 && ss[0].last + k < TWO64
    requires Next(before, F.Mount, F.Done(Success), ss[0])
    requires Next(ss[1000], F.Create(p, Data, mode1), F.Done(Success), ss[1001])
    requires Next(ss[k], F.Unmount, F.Done(Success), closed) && Next(closed, F.Mount, F.Done(Success), next)
    requires Next(next, F.Create(q, Data, mode2), F.Done(Success), both)
    ensures p != q && HasKind(both.db, p, Data) && HasKind(both.db, q, Data)
    ensures InoOf(both.db, p) == InoOf(both.db, q) == ss[1000].last
  {
    CreateCallsCount(ss, k, 1000);
    CreateCallsCount(ss, k, k);
    CreateCallsKeep(ss, k, 1001, k, Dentry(p));
  }

  /** A mount can make 1000 create calls that fail and one that succeeds. */
  lemma BatchOverrun() returns (ss: seq<Sys>)
    ensures CreateCalls(ss, 1001) && Next(Fresh(), F.Mount, F.Done(Success), ss[0])
    ensures Next(ss[1000], F.Create(A_FILE, Data, 0), F.Done(Success), ss[1001])
    ensures ss[0].last == ROOT_INO && ss[1001].mounted
    ensures FsInfo in ss[1001].db && Dentry(B_FILE) !in ss[1001].db
  {
    var m := FreshTree()[FsInfo := FsInfoRec(ROOT_INO + 1000)];
    assert MountOutcome(FreshTree(), m, ROOT_INO, Success);
    var mA := m[Dentry(A_FILE) := DentryRec(Attr(Data, 0, ROOT_INO + 1000, 0))];
    ss := seq(1002, i requires 0 <= i < 1002 =>
      if i <= 1000 then Sys(m, true, ROOT_INO + i, i, map[]) else Sys(mA, true, ROOT_INO + i, i, map[]));
    var create := F.Create(A_FILE, Data, 0);
    forall i | 0 <= i < 1000 ensures CreateCall(ss[i], ss[i + 1]) {
      assert Next(ss[i], create, F.Done(EINVAL), ss[i + 1]);
    }
    assert Next(ss[1000], create, F.Done(Success), ss[1001]);
  }

  /** From a mounted store, a remount and a create can succeed. */
  lemma RemountAndCreate(s: Sys, q: CString) returns (closed: Sys, next: Sys, both: Sys)
    requires s.mounted && FsInfo in s.db && Dentry(q) !in s.db
    ensures Next(s, F.Unmount, F.Done(Success), closed) && Next(closed, F.Mount, F.Done(Success), next)
    ensures Next(next, F.Create(q, Data, 0), F.Done(Success), both)
  {
    var last := s.db[FsInfo].lastIno;
    var m := s.db[FsInfo := FsInfoRec(U64(last + 1000))];
    closed, next := Sys(s.db, false, 0, 0, map[]), Sys(m, true, last, 0, map[]);
    assert MountOutcome(s.db, m, last, Success);
    both := Sys(m[Dentry(q) := DentryRec(Attr(Data, 0, last, 0))], true, U64(last + 1), 1, map[]);
  }

  /** Two live files with one inode can come about: 1000 creates that fail, one that succeeds, a remount and one
      more. */
  lemma CollisionExists() returns (ss: seq<Sys>, closed: Sys, next: Sys, both: Sys)
    ensures CreateCalls(ss, 1001) && Next(Fresh(), F.Mount, F.Done(Success), ss[0])
    ensures Next(ss[1000], F.Create(A_FILE, Data, 0), F.Done(Success), ss[1001])
    ensures Next(ss[1001], F.Unmount, F.Done(Success), closed) && Next(closed, F.Mount, F.Done(Success), next)
    ensures Next(next, F.Create(B_FILE, Data, 0), F.Done(Success), both)
    ensures HasKind(both.db, A_FILE, Data) && HasKind(both.db, B_FILE, Data)
    ensures InoOf(both.db, A_FILE) == InoOf(both.db, B_FILE)
  {
    hide Next;
    ss := BatchOverrun();
    closed, next, both := RemountAndCreate(ss[1001], B_FILE);
    TwoWithOneInode(Fresh(), ss, 1001, A_FILE, 0, closed, next, B_FILE, 0, both);
  }

  /** The first entry of the first mount gets the root's own number. */
  lemma FirstEntrySharesRootInode(s1: Sys, op: F.Op, s2: Sys)
    requires Next(Fresh(), F.Mount, F.Done(Success), s1)
    requires op.Create? && Next(s1, op, F.Done(Success), s2)
    ensures Dentry(ROOT) in s2.db && Dentry(op.path) in s2.db && op.path != ROOT
    ensures InoOf(s2.db, op.path) == InoOf(s2.db, ROOT) == 1
  {
  }

  // Files without holes

  /** The callers of a file write at or below its end and never grow it by setting its size. */
  ghost predicate PoliteRun(ops: seq<F.Op>, rs: seq<F.Res>, p: CString)
    requires |ops| == |rs|
  {
    forall i :: 0 <= i < |ops| ==> F.Polite(Model(ops, rs, i), ops[i], rs[i], p)
  }

  /** Over a whole run such a file never has a hole, whatever malloc returned and whatever failed. */
  lemma {:induction false} DenseRun(ss: seq<Sys>, ops: seq<F.Op>, rs: seq<F.Res>, p: CString, i: nat)
    requires Run(ss, ops, rs) && PoliteRun(ops, rs, p) && i <= |ops|
    ensures F.Dense(Model(ops, rs, i), p)
  {
    if i > 0 {
      hide Refines, Rules, Next, F.Apply, F.Allowed, F.Dense, F.Polite;
      DenseRun(ss, ops, rs, p, i - 1);
      RunRefines(ss, ops, rs, i - 1);
      var a, op, res := Model(ops, rs, i - 1), ops[i - 1], rs[i - 1];
      if p in ss[i - 1].open {
        StaysOpen(ss[i - 1], a, op, res, ss[i], p);
      }
      SizesAreHandles(ss[i - 1], a, p);
      F.DenseIsKept(a, op, res, p);
    } else {
      EmptyIsDense(p);
    }
  }

  lemma SizesAreHandles(s: Sys, a: F.Fs, p: CString)
    requires Refines(s, a)
    ensures p in a.sizes <==> p in s.open
  {
  }

  lemma EmptyIsDense(p: CString)
    ensures F.Dense(F.EMPTY, p)
  {
  }

  /** While it is open, its blocks below the handle's size are all stored and hold exactly the byte sequence of the
      flat file system, which every call changes as the laws of byte sequences say. */
  lemma WholeRunContents(ss: seq<Sys>, ops: seq<F.Op>, rs: seq<F.Res>, p: CString, i: nat)
    requires Run(ss, ops, rs) && PoliteRun(ops, rs, p) && i <= |ops| && p in ss[i].open
    ensures var a := Model(ops, rs, i);
            && p in a.sizes && F.Dense(a, p) && a.sizes[p] == ss[i].open[p].size
            && Dense(ss[i].db, ss[i].open[p].ino, ss[i].open[p].size)
            && BytesAt(ss[i].db, ss[i].open[p].ino, 0, ss[i].open[p].size) == F.Flat(a, p)
  {
    hide Names, InodeInv, Model;
    DenseRun(ss, ops, rs, p, i);
    RunRefines(ss, ops, rs, i);
    var a := Model(ops, rs, i);
    NodeOf(ss[i].db, a.nodes, p);
    FileOf(ss[i].db, a.nodes, p);
  }

  /** After a write or a size change that succeeded, the stored record is the one in the handle. */
  lemma RecordMatchesHandle(ss: seq<Sys>, ops: seq<F.Op>, rs: seq<F.Res>, i: nat)
    requires Run(ss, ops, rs) && i < |ops| && (ops[i].Write? || ops[i].SetSize?) && rs[i].error == Success
    ensures ops[i].path in ss[i + 1].open && Dentry(ops[i].path) in ss[i + 1].db
    ensures ss[i + 1].db[Dentry(ops[i].path)] == DentryRec(ss[i + 1].open[ops[i].path])
  {
    assert Next(ss[i], ops[i], rs[i], ss[i + 1]);
  }

  /** One call on such a file, seen on its bytes in the tree. */
  lemma WholeRunLaws(ss: seq<Sys>, ops: seq<F.Op>, rs: seq<F.Res>, p: CString, i: nat)
    requires Run(ss, ops, rs) && PoliteRun(ops, rs, p) && i < |ops|
    requires p in ss[i].open && p in ss[i + 1].open
    ensures F.SequenceLaw(p, ops[i], rs[i],
                          BytesAt(ss[i].db, ss[i].open[p].ino, 0, ss[i].open[p].size),
                          BytesAt(ss[i + 1].db, ss[i + 1].open[p].ino, 0, ss[i + 1].open[p].size))
  {
    hide Refines, Rules, Next, F.SequenceLaw, F.Allowed, F.Apply;
    var a, op, res := Model(ops, rs, i), ops[i], rs[i];
    RunRefines(ss, ops, rs, i);
    WholeRunContents(ss, ops, rs, p, i);
    WholeRunContents(ss, ops, rs, p, i + 1);
    RunStep(ss, ops, rs, i);
    StaysOpen(ss[i], a, op, res, ss[i + 1], p);
    BytesHaveBlocks(ss[i], a, p);
    F.FlatLaws(a, op, res, p);
  }

  lemma BytesHaveBlocks(s: Sys, a: F.Fs, p: CString)
    requires Refines(s, a) && F.IsFile(a.nodes, p)
    ensures forall j :: j in a.nodes[p].bytes ==> Floor(j) in a.nodes[p].blocks
  {
    hide InodeInv, Names, Handles, CounterInv;
    assert Dentry(p) in s.db by {
      NodeOf(s.db, a.nodes, p);
    }
    FileOf(s.db, a.nodes, p);
    assert forall j :: j in a.nodes[p].bytes ==> HasByte(s.db, InoOf(s.db, p), j);
  }

  /** An open file is not opened again, nor deleted, and no delete takes its entry. */
  lemma StaysOpen(s: Sys, a: F.Fs, op: F.Op, res: F.Res, s': Sys, p: CString)
    requires Refines(s, a) && Rules(s, op) && Next(s, op, res, s') && p in s.open
    ensures op.Open? || op.Delete? ==> op.path != p
    ensures op.Delete? && res.Deleted? ==> res.gone != F.PathGone(p)
  {
    hide Refines, KeyMatters, HasExtension, HasSuccessor, KeyLeft, Unseen;
    if op.Delete? {
      if res.returned && res.error == Success {
        GoneIsSpare(s, op.path, op.left, s'.db);
      } else {
        FailedLoss(s, a, op.path, s'.db, res.gone);
      }
    }
  }

  lemma RunStep(ss: seq<Sys>, ops: seq<F.Op>, rs: seq<F.Res>, i: nat)
    requires Run(ss, ops, rs) && i < |ops|
    ensures Rules(ss[i], ops[i]) && Next(ss[i], ops[i], rs[i], ss[i + 1])
  {
  }

  /** A fresh store can be mounted, and a file created and opened. */
  lemma OpenedFile() returns (s1: Sys, s2: Sys, s3: Sys)
    ensures Rules(Fresh(), F.Mount) && Next(Fresh(), F.Mount, F.Done(Success), s1)
    ensures Rules(s1, F.Create(A_FILE, Data, 0)) && Next(s1, F.Create(A_FILE, Data, 0), F.Done(Success), s2)
    ensures Rules(s2, F.Open(A_FILE)) && Next(s2, F.Open(A_FILE), F.Done(Success), s3)
    ensures s3.mounted && A_FILE in s3.open
  {
    var attr := Attr(Data, 0, ROOT_INO, 0);
    var m1 := FreshTree()[FsInfo := FsInfoRec(ROOT_INO + BATCH)];
    var m2 := m1[Dentry(A_FILE) := DentryRec(attr)];
    assert LastSlash(A_FILE) == 0 && Canonical(A_FILE) && Parent(A_FILE) == ROOT;
    assert MountOutcome(FreshTree(), m1, ROOT_INO, Success);
    s1 := Sys(m1, true, ROOT_INO, 0, map[]);
    s2 := Sys(m2, true, ROOT_INO + 1, 1, map[]);
    assert OpenOutcome(m2, A_FILE, attr, Success);
    s3 := s2.(open := s2.open[A_FILE := attr]);
  }

  /** An open file can be written. */
  lemma WrittenFile(s: Sys, p: CString, data: seq<Byte>, garbage: Garbage) returns (s': Sys)
    requires s.mounted && p in s.open
    ensures Next(s, F.Write(p, 0, data), F.Moved(|data|, Success), s')
  {
    hide Written;
    var attr := s.open[p].(size := Max(s.open[p].size, |data|));
    var m := Written(s.db, attr.ino, 0, data, garbage)[Dentry(p) := DentryRec(attr)];
    assert WriteOutcome(s.db, p, s.open[p], 0, data, garbage, m, attr, |data|, Success);
    s' := s.(db := m, open := s.open[p := attr]);
  }

  /** Runs that mount, create a file, open it and write to it exist. */
  lemma RunsExist(data: seq<Byte>, garbage: Garbage)
    requires |data| < TWO63
    ensures exists ss, ops, rs :: Run(ss, ops, rs) && |ops| == 4 && ops[3] == F.Write(A_FILE, 0, data)
  {
    hide Next, Fresh;
    var s1, s2, s3 := OpenedFile();
    var s4 := WrittenFile(s3, A_FILE, data, garbage);
    var ok := F.Done(Success);
    var ops := [F.Mount, F.Create(A_FILE, Data, 0), F.Open(A_FILE), F.Write(A_FILE, 0, data)];
    assert Run([Fresh(), s1, s2, s3, s4], ops, [ok, ok, ok, F.Moved(|data|, Success)]);
  }
}
