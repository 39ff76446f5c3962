/** Whole runs of dbfs: from a fresh store through any mounts, creates, deletes, opens, writes, reads and size changes,
    with any I/O failures, the store refines the flat file system. */
module System {
  import opened CStrings
  import opened Keys
  import opened Store
  import opened Paths
  import opened Blocks
  import opened Stream
  import opened Directory
  import opened Dbfs
  import F = FlatFs

  /** The tree, the mounted store object (its counter and how often it was used) and the attributes cached in the open
      stream handles, at most one for a path. */
  datatype Sys = Sys(db: Tree, mounted: bool, last: nat, creates: nat, open: map<CString, Attr>)

  /** A key whose removal no path can notice: the counter, or a block that belongs to no stored file. */
  ghost predicate Unseen(m: Tree, k: Key) {
    !k.Dentry? && (k.Block? ==> forall q :: HasKind(m, q, Data) ==> InoOf(m, q) != k.ino)
  }

  /** The tree m' is m without one thing, or the same. */
  ghost predicate Lost(m: Tree, m': Tree, gone: F.Gone) {
    match gone
    case NothingGone => m' == m || exists k :: k in m && Unseen(m, k) && m' == m - {k}
    case PathGone(q) => Dentry(q) in m && m' == m - {Dentry(q)}
    case BlockGone(q, off) =>
      HasKind(m, q, Data) && Block(InoOf(m, q), off) in m && m' == m - {Block(InoOf(m, q), off)}
  }

  /** One call, described by what the operations promise. */
  ghost predicate Next(s: Sys, op: F.Op, res: F.Res, s': Sys) {
    match (op, res)
    case (Mount, Done(error)) =>
      && !s.mounted
      && exists last :: MountOutcome(s.db, s'.db, last, error) &&
           s' == if error == Success then Sys(s'.db, true, last, 0, map[]) else s
    case (Unmount, Done(error)) =>
      s.mounted && error == Success && s' == Sys(s.db, false, 0, 0, map[])
    case (Create(p, kind, mode), Done(error)) =>
      && s.mounted
      && CreateOutcome(s.db, s.last, p, kind, mode, s'.db, s'.last, error)
      && s' == s.(db := s'.db, last := s'.last, creates := s.creates + 1)
    case (Delete(p, left), Deleted(returned, error, gone)) =>
      && s.mounted
      && DeleteOutcome(s.db, p, left, s'.db, if returned then Returned(error) else Looping)
      && Lost(s.db, s'.db, gone)
      && s' == s.(db := s'.db)
    case (Open(p), Done(error)) =>
      && s.mounted
      && exists attr :: OpenOutcome(s.db, p, attr, error) &&
           s' == if error == Success then s.(open := s.open[p := attr]) else s
    case (Close(p), Done(error)) =>
      s.mounted && error == Success && s' == s.(open := s.open - {p})
    case (Write(p, off, data), Moved(count, error)) =>
      && s.mounted && p in s.open && p in s'.open
      && (exists garbage :: WriteOutcome(s.db, p, s.open[p], off, data, garbage, s'.db, s'.open[p], count, error))
      && s' == s.(db := s'.db, open := s.open[p := s'.open[p]])
    case (Read(p, off, n, buf0), Filled(count, error, buf)) =>
      && s.mounted && p in s.open && s' == s
      && ReadOutcome(s.db, s.open[p], n, off, buf0, buf, count, error)
    case (SetSize(p, size), Done(error)) =>
      && s.mounted && p in s.open && p in s'.open
      && SetSizeOutcome(s.db, p, s.open[p], size, s'.db, s'.open[p], error)
      && s' == s.(db := s'.db, open := s.open[p := s'.open[p]])
    case _ => false
  }

  /** Any calls, one after the other, on the store that mkdbfs made. */
  ghost predicate Trace(ss: seq<Sys>, ops: seq<F.Op>, rs: seq<F.Res>) {
    && |ss| == |ops| + 1 == |rs| + 1
    && ss[0] == Fresh()
    && forall i :: 0 <= i < |ops| ==> Next(ss[i], ops[i], rs[i], ss[i + 1])
  }

  /** What a call on a reliable map returns. */
  ghost predicate NoFault(s: Sys, op: F.Op, res: F.Res) {
    match (op, res)
    case (Mount, Done(error)) => error == Success <==> FsInfo in s.db
    case (Create(p, _, _), Done(error)) => error == Success <==> Dentry(p) !in s.db
    case (Delete(_, _), Deleted(returned, error, _)) => returned ==> error != EIO
    case (Open(_), Done(error)) => error != EIO
    case (Write(_, _, _), Moved(_, error)) => error == Success
    case (Read(_, _, _, _), Filled(_, error, _)) => error != EIO
    case (SetSize(_, _), Done(error)) => error == Success
    case _ => true
  }

  /** dbfs_delete reaches dbfs_dela after its cursor has stored into the key buffer. */
  ghost predicate KeyMatters(m: Tree, p: CString) {
    HasKind(m, p, Container) && !HasExtension(m, p) && HasSuccessor(m, Dentry(p))
  }

  /** What a delete may take away: any block, and any entry that is not open. */
  ghost predicate Spare(s: Sys, k: Key) {
    match k
    case FsInfo => false
    case Dentry(q) => q !in s.open
    case Block(_, _) => true
  }

  /** How the callers use the store. At most 1000 create calls follow a mount; streams are opened on data entries, once
      for a path, and closed before the path is deleted; a delete that goes by the key in its buffer finds one there
      whose record is spare, or none; byte ranges stay below 2^63; the counter does not wrap. */
  ghost predicate Rules(s: Sys, op: F.Op) {
    match op
    case Mount => FsInfo in s.db ==> s.db[FsInfo].lastIno + 1000 < TWO64
    case Create(_, _, _) => s.creates < 1000
    case Delete(p, left) => p !in s.open && (KeyMatters(s.db, p) && left in s.db ==> Spare(s, left))
    case Open(p) => p !in s.open && (Dentry(p) in s.db ==> HasKind(s.db, p, Data))
    case Write(p, off, data) => off + |data| < TWO63
    case Read(p, off, n, buf0) => off < TWO63 && n <= |buf0|
    case SetSize(p, size) => size < TWO63
    case _ => true
  }

  // The invariant and the refinement relation

  function InoOf(m: Tree, p: CString): nat
    requires Dentry(p) in m
  {
    m[Dentry(p)].attr.ino
  }

  /** Every inode handed out so far is below this. */
  function Bound(s: Sys): nat
    requires FsInfo in s.db
  {
    if s.mounted then s.last else s.db[FsInfo].lastIno
  }

  ghost predicate CounterInv(s: Sys) {
    && FsInfo in s.db && s.db[FsInfo].lastIno < TWO64
    && (s.mounted ==> s.creates <= BATCH && s.last + BATCH == s.db[FsInfo].lastIno + s.creates)
    && (!s.mounted ==> s.open == map[])
  }

  /** Data entries have distinct inodes below the bound; blocks are aligned and belong to inodes below the bound. */
  ghost predicate InodeInv(m: Tree, bound: nat) {
    && (forall p :: HasKind(m, p, Data) ==> InoOf(m, p) < bound)
    && (forall p, q :: HasKind(m, p, Data) && HasKind(m, q, Data) && InoOf(m, p) == InoOf(m, q) ==> p == q)
    && (forall k :: k in m && k.Block? ==> k.off % BLKSIZE == 0 && k.ino < bound)
  }

  ghost predicate NodeAgrees(m: Tree, p: CString, node: F.Node)
    requires Dentry(p) in m
  {
    var attr := m[Dentry(p)].attr;
    && attr.size < TWO63
    && attr.mode == node.mode
    && match node
       case Dir(_) => attr.kind == Container && attr.size == 0
       case Odd(_) => attr.kind == Other && attr.size == 0
       case File(_, size, _, _) => attr.kind == Data && attr.size == size
  }

  /** The tree holds the entries of the flat file system. */
  ghost predicate Names(m: Tree, nodes: map<CString, F.Node>) {
    && (forall p :: p in nodes <==> Dentry(p) in m)
    && (forall p :: p in nodes ==> NodeAgrees(m, p, nodes[p]))
  }

  /** The blocks of an inode hold the bytes of a file. */
  ghost predicate FileAgrees(m: Tree, ino: nat, f: F.Node)
    requires f.File?
  {
    && (forall i: nat :: HasByte(m, ino, i) <==> Floor(i) in f.blocks)
    && (forall i :: i in f.bytes ==> HasByte(m, ino, i) && ByteAt(m, ino, i) == f.bytes[i])
  }

  ghost predicate Contents(m: Tree, nodes: map<CString, F.Node>) {
    forall p :: F.IsFile(nodes, p) && Dentry(p) in m ==> FileAgrees(m, InoOf(m, p), nodes[p])
  }

  ghost predicate Handles(m: Tree, open: map<CString, Attr>, sizes: map<CString, nat>) {
    && open.Keys == sizes.Keys
    && (forall p :: p in open ==>
          HasKind(m, p, Data) && sizes[p] < TWO63 && open[p] == m[Dentry(p)].attr.(size := sizes[p]))
  }

  ghost predicate Refines(s: Sys, a: F.Fs) {
    && CounterInv(s)
    && InodeInv(s.db, Bound(s))
    && Names(s.db, a.nodes)
    && Contents(s.db, a.nodes)
    && Handles(s.db, s.open, a.sizes)
  }

  function Fresh(): Sys {
    Sys(FreshTree(), false, 0, 0, map[])
  }

  lemma FreshRefines()
    ensures Refines(Fresh(), F.EMPTY)
  {
  }

  // Changes of the tree

  /** Two trees with the same entries and the same blocks. */
  ghost predicate SameButFsInfo(m: Tree, m': Tree) {
    forall k: Key :: !k.FsInfo? ==> (k in m <==> k in m') && (k in m ==> m[k] == m'[k])
  }

  lemma FsInfoFrame(m: Tree, m': Tree, bound: nat, nodes: map<CString, F.Node>,
                    open: map<CString, Attr>, sizes: map<CString, nat>)
    requires SameButFsInfo(m, m')
    ensures InodeInv(m, bound) ==> InodeInv(m', bound)
    ensures Names(m, nodes) ==> Names(m', nodes)
    ensures Contents(m, nodes) ==> Contents(m', nodes)
    ensures Handles(m, open, sizes) ==> Handles(m', open, sizes)
  {
    assert forall p, k :: HasKind(m, p, k) <==> HasKind(m', p, k);
    forall i, o: nat ensures HasByte(m, i, o) <==> HasByte(m', i, o) {
    }
    forall i, o: nat ensures ByteAt(m, i, o) == ByteAt(m', i, o) {
    }
  }

  // Steps

  lemma MountStep(s: Sys, a: F.Fs, res: F.Res, s': Sys)
    requires Refines(s, a) && Rules(s, F.Mount) && Next(s, F.Mount, res, s')
    ensures Refines(s', F.Apply(a, F.Mount, res)) && Bound(s) <= Bound(s')
  {
    if s' != s {
      FsInfoFrame(s.db, s'.db, Bound(s), a.nodes, s.open, a.sizes);
    }
  }

  lemma UnmountStep(s: Sys, a: F.Fs, res: F.Res, s': Sys)
    requires Refines(s, a) && Next(s, F.Unmount, res, s')
    ensures Refines(s', F.Apply(a, F.Unmount, res)) && Bound(s) <= Bound(s')
  {
  }

  /** The blocks of an inode are the same in two trees. */
  ghost predicate SameFile(m: Tree, m': Tree, ino: nat) {
    forall o: nat ::
      && (Block(ino, o) in m <==> Block(ino, o) in m')
      && (Block(ino, o) in m ==> m[Block(ino, o)] == m'[Block(ino, o)])
  }

  lemma SameFileAgrees(m: Tree, m': Tree, ino: nat, f: F.Node)
    requires f.File? && SameFile(m, m', ino) && FileAgrees(m, ino, f)
    ensures FileAgrees(m', ino, f)
  {
    forall i: nat ensures HasByte(m', ino, i) <==> HasByte(m, ino, i) {
    }
    forall i: nat | HasByte(m, ino, i) ensures ByteAt(m', ino, i) == ByteAt(m, ino, i) {
    }
  }

  /** When only p changes, the other files still agree if their blocks are the same. */
  lemma ContentsFrame(m: Tree, m': Tree, nodes: map<CString, F.Node>, nodes': map<CString, F.Node>, p: CString)
    requires Contents(m, nodes)
    requires forall q :: q != p && F.IsFile(nodes', q) && Dentry(q) in m' ==>
               && F.IsFile(nodes, q) && nodes[q] == nodes'[q]
               && Dentry(q) in m && InoOf(m, q) == InoOf(m', q) && SameFile(m, m', InoOf(m, q))
    requires F.IsFile(nodes', p) && Dentry(p) in m' ==> FileAgrees(m', InoOf(m', p), nodes'[p])
    ensures Contents(m', nodes')
  {
    forall q | F.IsFile(nodes', q) && Dentry(q) in m' ensures FileAgrees(m', InoOf(m', q), nodes'[q]) {
      if q != p {
        SameFileAgrees(m, m', InoOf(m, q), nodes[q]);
      }
    }
  }

  lemma NodeOf(m: Tree, nodes: map<CString, F.Node>, p: CString)
    requires Names(m, nodes)
    ensures p in nodes <==> Dentry(p) in m
    ensures p in nodes ==> NodeAgrees(m, p, nodes[p])
    ensures F.IsFile(nodes, p) <==> HasKind(m, p, Data)
    ensures HasKind(m, p, Container) <==> p in nodes && nodes[p].Dir?
  {
  }

  /** Files may change, but the names stay. */
  lemma ReplacedNames(m: Tree, m': Tree, nodes: map<CString, F.Node>, p: CString, node: F.Node)
    requires Names(m, nodes) && F.IsFile(nodes, p) && node.File?
    requires forall q :: Dentry(q) in m <==> Dentry(q) in m'
    requires forall q :: q != p && Dentry(q) in m ==> m[Dentry(q)] == m'[Dentry(q)]
    requires Dentry(p) in m' && NodeAgrees(m', p, node)
    ensures Names(m', nodes[p := node])
  {
  }

  /** Handles look at nothing but the records of their own entries. */
  lemma HandlesFrame(m: Tree, m': Tree, open: map<CString, Attr>, sizes: map<CString, nat>)
    requires Handles(m, open, sizes)
    requires forall p :: p in open && Dentry(p) in m ==> Dentry(p) in m' && m'[Dentry(p)] == m[Dentry(p)]
    ensures Handles(m', open, sizes)
  {
  }

  // Create

  lemma CreateNames(m: Tree, nodes: map<CString, F.Node>, p: CString, attr: Attr, node: F.Node)
    requires Names(m, nodes) && p !in nodes && NodeAgrees(m[Dentry(p) := DentryRec(attr)], p, node)
    ensures Names(m[Dentry(p) := DentryRec(attr)], nodes[p := node])
  {
  }

  lemma CreateInodes(m: Tree, p: CString, attr: Attr, bound: nat)
    requires InodeInv(m, bound) && attr.ino == bound && Dentry(p) !in m
    ensures InodeInv(m[Dentry(p) := DentryRec(attr)], bound + 1)
  {
    var m' := m[Dentry(p) := DentryRec(attr)];
    forall q | q != p && HasKind(m', q, Data) ensures HasKind(m, q, Data) && InoOf(m', q) == InoOf(m, q) < bound {
      assert m'[Dentry(q)] == m[Dentry(q)];
    }
  }

  /** A newly created file has no blocks, although deleted files leave theirs behind. */
  lemma NewInodeIsBlank(m: Tree, bound: nat)
    requires InodeInv(m, bound)
    ensures forall i: nat :: !HasByte(m, bound, i)
    ensures forall mode: nat :: FileAgrees(m, bound, F.NewNode(Data, mode))
  {
  }

  /** The new entry's inode is the old bound. */
  lemma CreateStep(s: Sys, a: F.Fs, op: F.Op, res: F.Res, s': Sys)
    requires op.Create? && Refines(s, a) && Rules(s, op) && Next(s, op, res, s')
    ensures F.Allowed(a, op, res) && Refines(s', F.Apply(a, op, res))
    ensures Bound(s') == Bound(s) + 1 && Bound(s) == s.last
  {
    hide InodeInv, Names, Contents, Handles, FileAgrees;
    var p, a' := op.path, F.Apply(a, op, res);
    NodeOf(s.db, a.nodes, p);
    if res.error == Success {
      var attr := Attr(op.kind, op.mode, s.last, 0);
      CreateNames(s.db, a.nodes, p, attr, a'.nodes[p]);
      CreateInodes(s.db, p, attr, s.last);
      CreateContents(s.db, a.nodes, p, attr, a'.nodes[p]);
      HandlesFrame(s.db, s'.db, s.open, a.sizes);
    } else {
      InodesMonotone(s.db, s.last);
    }
  }

  lemma CreateContents(m: Tree, nodes: map<CString, F.Node>, p: CString, attr: Attr, node: F.Node)
    requires Contents(m, nodes) && InodeInv(m, attr.ino) && Dentry(p) !in m
    requires node.File? ==> node == F.NewNode(Data, attr.mode)
    ensures Contents(m[Dentry(p) := DentryRec(attr)], nodes[p := node])
  {
    hide InodeInv, FileAgrees;
    var m' := m[Dentry(p) := DentryRec(attr)];
    NewInodeIsBlank(m, attr.ino);
    forall ino ensures SameFile(m, m', ino) {
    }
    SameFileAgrees(m, m', attr.ino, F.NewNode(Data, attr.mode));
    ContentsFrame(m, m', nodes, nodes[p := node], p);
  }

  lemma InodesMonotone(m: Tree, bound: nat)
    requires InodeInv(m, bound)
    ensures InodeInv(m, bound + 1)
  {
  }

  // Delete

  lemma DeleteNames(m: Tree, nodes: map<CString, F.Node>, p: CString)
    requires Names(m, nodes)
    ensures Names(m - {Dentry(p)}, nodes - {p})
  {
  }

  lemma DropBlockAgrees(m: Tree, ino: nat, off: nat, f: F.Node)
    requires f.File? && FileAgrees(m, ino, f)
    ensures FileAgrees(m - {Block(ino, off)}, ino, F.DropBlock(f, off))
  {
    var m' := m - {Block(ino, off)};
    forall i: nat ensures HasByte(m', ino, i) <==> HasByte(m, ino, i) && Floor(i) != off {
    }
    forall i | i in F.DropBlock(f, off).bytes ensures HasByte(m', ino, i) && ByteAt(m', ino, i) == f.bytes[i] {
      assert Floor(i) != off;
    }
  }

  /** A block that goes is missing from the one file it belongs to. */
  lemma DropBlockStep(m: Tree, a: F.Fs, p: CString, off: nat, bound: nat, open: map<CString, Attr>)
    requires InodeInv(m, bound) && Names(m, a.nodes) && Contents(m, a.nodes) && Handles(m, open, a.sizes)
    requires HasKind(m, p, Data)
    ensures F.IsFile(a.nodes, p)
    ensures var m' := m - {Block(InoOf(m, p), off)};
            var nodes' := a.nodes[p := F.DropBlock(a.nodes[p], off)];
            InodeInv(m', bound) && Names(m', nodes') && Contents(m', nodes') && Handles(m', open, a.sizes)
  {
    hide Names, Handles, Contents, FileAgrees;
    var ino := InoOf(m, p);
    var m' := m - {Block(ino, off)};
    NodeOf(m, a.nodes, p);
    var nodes' := a.nodes[p := F.DropBlock(a.nodes[p], off)];
    HandlesFrame(m, m', open, a.sizes);
    ReplacedNames(m, m', a.nodes, p, F.DropBlock(a.nodes[p], off));
    assert FileAgrees(m, ino, a.nodes[p]) by {
      FileOf(m, a.nodes, p);
    }
    DropBlockAgrees(m, ino, off, a.nodes[p]);
    forall q | q != p && F.IsFile(nodes', q) && Dentry(q) in m' ensures SameFile(m, m', InoOf(m, q)) {
      NodeOf(m, a.nodes, q);
      assert HasKind(m, q, Data) && HasKind(m, p, Data);
    }
    ContentsFrame(m, m', a.nodes, nodes', p);
    forall q, k ensures HasKind(m', q, k) <==> HasKind(m, q, k) {
    }
  }

  lemma FileOf(m: Tree, nodes: map<CString, F.Node>, p: CString)
    requires Contents(m, nodes) && F.IsFile(nodes, p) && Dentry(p) in m
    ensures FileAgrees(m, InoOf(m, p), nodes[p])
  {
  }

  /** A block of a deleted file that goes is missing from nothing. */
  lemma OrphanStep(m: Tree, k: Key, a: F.Fs, bound: nat, open: map<CString, Attr>)
    requires InodeInv(m, bound) && Names(m, a.nodes) && Contents(m, a.nodes) && Handles(m, open, a.sizes)
    requires k.Block? && Unseen(m, k)
    ensures var m' := m - {k};
            InodeInv(m', bound) && Names(m', a.nodes) && Contents(m', a.nodes) && Handles(m', open, a.sizes)
  {
    hide Names, Contents, FileAgrees, Handles;
    var m' := m - {k};
    HandlesFrame(m, m', open, a.sizes);
    OrphanNames(m, k, a.nodes);
    forall q, kind ensures HasKind(m', q, kind) <==> HasKind(m, q, kind) {
    }
    forall q | F.IsFile(a.nodes, q) && Dentry(q) in m' ensures SameFile(m, m', InoOf(m, q)) {
      NodeOf(m, a.nodes, q);
    }
    if F.IsFile(a.nodes, ROOT) && Dentry(ROOT) in m' {
      FileOf(m, a.nodes, ROOT);
      SameFileAgrees(m, m', InoOf(m, ROOT), a.nodes[ROOT]);
    }
    ContentsFrame(m, m', a.nodes, a.nodes, ROOT);
  }

  lemma OrphanNames(m: Tree, k: Key, nodes: map<CString, F.Node>)
    requires Names(m, nodes) && k.Block?
    ensures Names(m - {k}, nodes)
  {
  }

  /** The invariant after a delete that took away a block, or an entry that is not open. */
  lemma LoseStep(m: Tree, m': Tree, a: F.Fs, gone: F.Gone, bound: nat, open: map<CString, Attr>)
    requires InodeInv(m, bound) && Names(m, a.nodes) && Contents(m, a.nodes) && Handles(m, open, a.sizes)
    requires Lost(m, m', gone) && FsInfo in m && FsInfo in m'
    requires gone.PathGone? ==> gone.path !in open
    ensures var nodes' := F.Lose(a.nodes, gone);
            InodeInv(m', bound) && Names(m', nodes') && Contents(m', nodes') && Handles(m', open, a.sizes)
  {
    hide InodeInv, Names, Contents, Handles, Unseen, F.DropBlock;
    match gone
    case NothingGone =>
      if m' != m {
        var k :| k in m && Unseen(m, k) && m' == m - {k};
        assert k.Block? by {
          UnseenIsBlock(m, k);
        }
        OrphanStep(m, k, a, bound, open);
      }
    case PathGone(q) =>
      NodeOf(m, a.nodes, q);
      DeleteNames(m, a.nodes, q);
      DeleteFrame(m, a.nodes, q, bound);
      HandlesFrame(m, m', open, a.sizes);
    case BlockGone(q, off) =>
      DropBlockStep(m, a, q, off, bound, open);
  }

  lemma UnseenIsBlock(m: Tree, k: Key)
    requires Unseen(m, k) && k != FsInfo
    ensures k.Block?
  {
  }

  /** Whatever key goes, the loss has a name. */
  lemma LossOf(m: Tree, k: Key) returns (gone: F.Gone)
    requires k in m
    ensures Lost(m, m - {k}, gone)
  {
    if k.Dentry? {
      return F.PathGone(k.path);
    } else if k.Block? && exists q :: HasKind(m, q, Data) && InoOf(m, q) == k.ino {
      var q :| HasKind(m, q, Data) && InoOf(m, q) == k.ino;
      return F.BlockGone(q, k.off);
    } else {
      assert Unseen(m, k);
      return F.NothingGone;
    }
  }

  lemma DeleteLoses(m: Tree, p: CString, left: Key, m': Tree, outcome: Outcome) returns (gone: F.Gone)
    requires DeleteOutcome(m, p, left, m', outcome)
    ensures Lost(m, m', gone)
  {
    hide Unseen, HasExtension, HasSuccessor;
    if m' == m {
      return F.NothingGone;
    } else if outcome == Returned(Success) {
      gone := LossOf(m, KeyLeft(m, p, left));
    } else {
      gone := LossOf(m, Block(InoOf(m, p), 0));
    }
  }

  /** The key whose record a successful delete removes is spare. */
  lemma GoneIsSpare(s: Sys, p: CString, left: Key, m': Tree)
    requires Rules(s, F.Delete(p, left)) && DeleteOutcome(s.db, p, left, m', Returned(Success))
    ensures Spare(s, KeyLeft(s.db, p, left)) && KeyLeft(s.db, p, left) in s.db
  {
    hide HasSuccessor, HasExtension;
  }

  /** A failed delete loses nothing or the first block of an empty file. */
  lemma FailedLoss(s: Sys, a: F.Fs, p: CString, m': Tree, gone: F.Gone)
    requires Refines(s, a) && AtMostFirstBlock(s.db, p, m') && Lost(s.db, m', gone)
    ensures gone == F.NothingGone || (IsEmptyData(s.db, p) && gone == F.BlockGone(p, 0))
    ensures FsInfo in m'
  {
    hide Names, Contents, Handles;
  }

  lemma DeleteAllowed(s: Sys, a: F.Fs, op: F.Op, res: F.Res, s': Sys)
    requires op.Delete? && Refines(s, a) && Rules(s, op) && Next(s, op, res, s')
    ensures F.Allowed(a, op, res)
  {
    hide InodeInv, Names, Contents, Handles, CounterInv, HasExtension, HasSuccessor;
    var p := op.path;
    ExtensionsAreNodes(s.db, a.nodes, p);
    NodeOf(s.db, a.nodes, p);
    if res.returned && res.error == Success {
      GoneIsSpare(s, p, op.left, s'.db);
      if res.gone.PathGone? {
        NodeOf(s.db, a.nodes, res.gone.path);
      } else if res.gone.BlockGone? {
        BlockIsThere(s, a, res.gone.path, res.gone.off);
      }
    } else {
      FailedLoss(s, a, p, s'.db, res.gone);
    }
  }

  lemma DeleteStep(s: Sys, a: F.Fs, op: F.Op, res: F.Res, s': Sys)
    requires op.Delete? && Refines(s, a) && Rules(s, op) && Next(s, op, res, s')
    ensures F.Allowed(a, op, res) && Refines(s', F.Apply(a, op, res)) && Bound(s) == Bound(s')
  {
    hide InodeInv, Names, Contents, Handles, HasExtension, HasSuccessor, F.Allowed;
    DeleteAllowed(s, a, op, res, s');
    if res.returned && res.error == Success {
      GoneIsSpare(s, op.path, op.left, s'.db);
    } else {
      FailedLoss(s, a, op.path, s'.db, res.gone);
    }
    LoseStep(s.db, s'.db, a, res.gone, Bound(s), s.open);
  }

  lemma BlockIsThere(s: Sys, a: F.Fs, q: CString, off: nat)
    requires Refines(s, a) && HasKind(s.db, q, Data) && Block(InoOf(s.db, q), off) in s.db
    ensures F.IsFile(a.nodes, q) && off in a.nodes[q].blocks
  {
    hide Names, Handles, CounterInv;
    NodeOf(s.db, a.nodes, q);
    FileOf(s.db, a.nodes, q);
    assert Floor(off) == off && HasByte(s.db, InoOf(s.db, q), off);
  }

  lemma DeleteFrame(m: Tree, nodes: map<CString, F.Node>, p: CString, bound: nat)
    requires Contents(m, nodes) && InodeInv(m, bound)
    ensures Contents(m - {Dentry(p)}, nodes - {p}) && InodeInv(m - {Dentry(p)}, bound)
  {
    var m' := m - {Dentry(p)};
    forall ino ensures SameFile(m, m', ino) {
    }
    forall q, k | HasKind(m', q, k) ensures HasKind(m, q, k) && InoOf(m', q) == InoOf(m, q) {
    }
    ContentsFrame(m, m', nodes, nodes - {p}, p);
  }

  lemma ExtensionsAreNodes(m: Tree, nodes: map<CString, F.Node>, p: CString)
    requires Names(m, nodes)
    ensures HasExtension(m, p) <==> exists q :: q in nodes && p < q
  {
    if HasExtension(m, p) {
      var k :| Extends(m, p, k);
      assert k.path in nodes && p < k.path;
    }
    if exists q :: q in nodes && p < q {
      var q :| q in nodes && p < q;
      assert Extends(m, p, Dentry(q));
    }
  }

  // Open and close

  lemma OpenStep(s: Sys, a: F.Fs, op: F.Op, res: F.Res, s': Sys)
    requires op.Open? && Refines(s, a) && Rules(s, op) && Next(s, op, res, s')
    ensures F.Allowed(a, op, res) && Refines(s', F.Apply(a, op, res)) && Bound(s) == Bound(s')
  {
    hide InodeInv, Contents, Names;
    NodeOf(s.db, a.nodes, op.path);
  }

  lemma CloseStep(s: Sys, a: F.Fs, op: F.Op, res: F.Res, s': Sys)
    requires op.Close? && Refines(s, a) && Next(s, op, res, s')
    ensures Refines(s', F.Apply(a, op, res)) && Bound(s) == Bound(s')
  {
    hide InodeInv, Contents, Names;
  }

  // Write

  /** Everything but the blocks of one inode is the same in two trees. */
  ghost predicate SameOutside(m: Tree, m': Tree, ino: nat) {
    forall k: Key :: !(k.Block? && k.ino == ino) ==> (k in m <==> k in m') && (k in m ==> m[k] == m'[k])
  }

  lemma WrittenOutside(m: Tree, ino: nat, off: nat, data: seq<Byte>, garbage: Garbage)
    ensures SameOutside(m, Written(m, ino, off, data, garbage), ino)
  {
  }

  lemma WrittenInodes(m: Tree, ino: nat, off: nat, data: seq<Byte>, garbage: Garbage, bound: nat)
    requires InodeInv(m, bound) && ino < bound
    ensures InodeInv(Written(m, ino, off, data, garbage), bound)
  {
    var m' := Written(m, ino, off, data, garbage);
    WrittenOutside(m, ino, off, data, garbage);
    forall q, k ensures HasKind(m', q, k) <==> HasKind(m, q, k) {
    }
    forall q | HasKind(m, q, Data) ensures InoOf(m', q) == InoOf(m, q) {
    }
  }

  lemma WrittenAgrees(m: Tree, ino: nat, f: F.Node, off: nat, data: seq<Byte>, garbage: Garbage)
    requires f.File? && FileAgrees(m, ino, f)
    ensures FileAgrees(Written(m, ino, off, data, garbage), ino, F.PutBytes(f, off, data))
  {
    hide Written;
    var m', f' := Written(m, ino, off, data, garbage), F.PutBytes(f, off, data);
    forall i: nat ensures HasByte(m', ino, i) <==> Floor(i) in f'.blocks {
      WriteFrame(m, ino, off, data, garbage, i);
    }
    forall i | i in f'.bytes ensures HasByte(m', ino, i) && ByteAt(m', ino, i) == f'.bytes[i] {
      WriteFrame(m, ino, off, data, garbage, i);
    }
  }

  /** A write changes the bytes of its own file and no byte of any other. */
  lemma WrittenTree(m: Tree, a: F.Fs, p: CString, off: nat, data: seq<Byte>, garbage: Garbage,
                    bound: nat, open: map<CString, Attr>)
    requires InodeInv(m, bound) && Names(m, a.nodes) && Contents(m, a.nodes) && Handles(m, open, a.sizes)
    requires HasKind(m, p, Data)
    ensures F.IsFile(a.nodes, p)
    ensures var m' := Written(m, InoOf(m, p), off, data, garbage);
            var nodes' := a.nodes[p := F.PutBytes(a.nodes[p], off, data)];
            && InodeInv(m', bound) && Names(m', nodes') && Contents(m', nodes') && Handles(m', open, a.sizes)
            && HasKind(m', p, Data) && m'[Dentry(p)] == m[Dentry(p)]
  {
    hide Names, Handles, Contents, FileAgrees, Written, F.PutBytes;
    var ino := InoOf(m, p);
    var m' := Written(m, ino, off, data, garbage);
    NodeOf(m, a.nodes, p);
    var nodes' := a.nodes[p := F.PutBytes(a.nodes[p], off, data)];
    WrittenOutside(m, ino, off, data, garbage);
    assert InodeInv(m', bound) by {
      WrittenInodes(m, ino, off, data, garbage, bound);
    }
    HandlesFrame(m, m', open, a.sizes);
    PutNames(m, m', a.nodes, p, off, data);
    FileOf(m, a.nodes, p);
    WrittenAgrees(m, ino, a.nodes[p], off, data, garbage);
    forall q | q != p && F.IsFile(nodes', q) && Dentry(q) in m'
      ensures Dentry(q) in m && InoOf(m, q) == InoOf(m', q) && SameFile(m, m', InoOf(m, q))
    {
      NodeOf(m, a.nodes, q);
      assert HasKind(m, q, Data) && HasKind(m, p, Data);
    }
    ContentsFrame(m, m', a.nodes, nodes', p);
  }

  lemma PutNames(m: Tree, m': Tree, nodes: map<CString, F.Node>, p: CString, off: nat, data: seq<Byte>)
    requires Names(m, nodes) && F.IsFile(nodes, p)
    requires forall q :: (Dentry(q) in m <==> Dentry(q) in m') && (Dentry(q) in m ==> m[Dentry(q)] == m'[Dentry(q)])
    ensures Names(m', nodes[p := F.PutBytes(nodes[p], off, data)])
  {
    hide Names;
    NodeOf(m, nodes, p);
    ReplacedNames(m, m', nodes, p, F.PutBytes(nodes[p], off, data));
  }

  /** Storing a record that differs in its size only. */
  lemma SizeStored(m: Tree, nodes: map<CString, F.Node>, p: CString, size: nat, bound: nat)
    requires InodeInv(m, bound) && Names(m, nodes) && Contents(m, nodes)
    requires HasKind(m, p, Data) && size < TWO63
    ensures F.IsFile(nodes, p)
    ensures var m' := m[Dentry(p) := DentryRec(m[Dentry(p)].attr.(size := size))];
            var nodes' := nodes[p := nodes[p].(size := size)];
            InodeInv(m', bound) && Names(m', nodes') && Contents(m', nodes')
  {
    hide Names, Contents, InodeInv;
    NodeOf(m, nodes, p);
    SizeStoredInodes(m, p, size, bound);
    ReplacedNames(m, m[Dentry(p) := DentryRec(m[Dentry(p)].attr.(size := size))], nodes, p, nodes[p].(size := size));
    SizeStoredContents(m, nodes, p, size);
  }

  lemma SizeStoredInodes(m: Tree, p: CString, size: nat, bound: nat)
    requires InodeInv(m, bound) && HasKind(m, p, Data)
    ensures InodeInv(m[Dentry(p) := DentryRec(m[Dentry(p)].attr.(size := size))], bound)
  {
    var m' := m[Dentry(p) := DentryRec(m[Dentry(p)].attr.(size := size))];
    forall q, k ensures HasKind(m', q, k) <==> HasKind(m, q, k) {
    }
    forall q | HasKind(m, q, Data) ensures InoOf(m', q) == InoOf(m, q) {
    }
  }

  lemma SizeStoredContents(m: Tree, nodes: map<CString, F.Node>, p: CString, size: nat)
    requires Contents(m, nodes) && F.IsFile(nodes, p) && Dentry(p) in m
    ensures Contents(m[Dentry(p) := DentryRec(m[Dentry(p)].attr.(size := size))], nodes[p := nodes[p].(size := size)])
  {
    hide Contents, FileAgrees;
    var m' := m[Dentry(p) := DentryRec(m[Dentry(p)].attr.(size := size))];
    var nodes' := nodes[p := nodes[p].(size := size)];
    forall ino ensures SameFile(m, m', ino) {
    }
    FileOf(m, nodes, p);
    SameFileAgrees(m, m', InoOf(m, p), nodes[p]);
    SizeIsNoContent(m', InoOf(m, p), nodes[p], size);
    ContentsFrame(m, m', nodes, nodes', p);
  }

  lemma SizeIsNoContent(m: Tree, ino: nat, f: F.Node, size: nat)
    requires f.File? && FileAgrees(m, ino, f)
    ensures FileAgrees(m, ino, f.(size := size))
  {
  }

  /** A handle's new size is cached, and stored when the record could be written. */
  lemma HandlesResized(m: Tree, open: map<CString, Attr>, sizes: map<CString, nat>, p: CString, size: nat)
    requires Handles(m, open, sizes) && p in open && size < TWO63
    ensures var open', sizes' := open[p := open[p].(size := size)], sizes[p := size];
            && Handles(m, open', sizes')
            && Handles(m[Dentry(p) := DentryRec(open[p].(size := size))], open', sizes')
            && open[p].(size := size) == m[Dentry(p)].attr.(size := size)
  {
  }

  lemma HandleOf(m: Tree, open: map<CString, Attr>, sizes: map<CString, nat>, p: CString)
    requires Handles(m, open, sizes) && p in open
    ensures HasKind(m, p, Data) && p in sizes && sizes[p] < TWO63 && open[p] == m[Dentry(p)].attr.(size := sizes[p])
  {
  }

  lemma WriteStep(s: Sys, a: F.Fs, op: F.Op, res: F.Res, s': Sys)
    requires op.Write? && Refines(s, a) && Rules(s, op) && Next(s, op, res, s')
    ensures F.Allowed(a, op, res) && Refines(s', F.Apply(a, op, res)) && Bound(s) == Bound(s')
  {
    WriteAllowed(s, a, op, res, s');
    hide Refines, Rules, Next, F.Apply, F.Allowed;
    if res.error == EIO {
      WriteFailed(s, a, op, res, s');
    } else {
      WriteDone(s, a, op, res, s');
    }
  }

  lemma WriteAllowed(s: Sys, a: F.Fs, op: F.Op, res: F.Res, s': Sys)
    requires op.Write? && Refines(s, a) && Next(s, op, res, s')
    ensures res.Moved? && F.Allowed(a, op, res)
  {
    hide InodeInv, Contents, Names;
    NodeOf(s.db, a.nodes, op.path);
  }

  /** A failed write leaves the bytes of the finished part in the file and no size changed. */
  lemma WriteFailed(s: Sys, a: F.Fs, op: F.Op, res: F.Res, s': Sys)
    requires op.Write? && res.Moved? && res.error == EIO && Refines(s, a) && Next(s, op, res, s')
    ensures Refines(s', F.Apply(a, op, res)) && Bound(s) == Bound(s')
  {
    hide InodeInv, Names, Contents, Handles, Written, F.PutBytes;
    var p, attr := op.path, s.open[op.path];
    HandleOf(s.db, s.open, a.sizes, p);
    var garbage :| WriteOutcome(s.db, p, attr, op.off, op.data, garbage, s'.db, s'.open[p], res.count, res.error);
    var done := op.data[..res.count];
    WrittenOutside(s.db, attr.ino, op.off, done, garbage);
    WrittenTree(s.db, a, p, op.off, done, garbage, Bound(s), s.open);
    assert s'.open == s.open;
  }

  /** A write that reached its end moves the size on; the record follows unless storing it failed. */
  lemma WriteDone(s: Sys, a: F.Fs, op: F.Op, res: F.Res, s': Sys)
    requires op.Write? && res.Moved? && res.error != EIO && Refines(s, a) && Rules(s, op) && Next(s, op, res, s')
    ensures Refines(s', F.Apply(a, op, res)) && Bound(s) == Bound(s')
  {
    hide InodeInv, Names, Contents, Handles, Written, F.PutBytes;
    var p, off, data, attr := op.path, op.off, op.data, s.open[op.path];
    HandleOf(s.db, s.open, a.sizes, p);
    var garbage :| WriteOutcome(s.db, p, attr, off, data, garbage, s'.db, s'.open[p], res.count, res.error);
    assert data[..res.count] == data;
    WrittenOutside(s.db, attr.ino, off, data, garbage);
    WrittenTree(s.db, a, p, off, data, garbage, Bound(s), s.open);
    var m1 := Written(s.db, attr.ino, off, data, garbage);
    var nodes1 := a.nodes[p := F.PutBytes(a.nodes[p], off, data)];
    var size := Max(attr.size, off + |data|);
    HandlesResized(m1, s.open, a.sizes, p, size);
    SizeStored(m1, nodes1, p, size, Bound(s));
    if res.error == Success {
      assert F.Apply(a, op, res) == F.Fs(nodes1[p := nodes1[p].(size := size)], a.sizes[p := size]);
      assert s'.db == m1[Dentry(p) := DentryRec(attr.(size := size))];
    } else {
      assert F.Apply(a, op, res) == F.Fs(nodes1, a.sizes[p := size]);
    }
  }

  lemma SetSizeStep(s: Sys, a: F.Fs, op: F.Op, res: F.Res, s': Sys)
    requires op.SetSize? && Refines(s, a) && Rules(s, op) && Next(s, op, res, s')
    ensures F.Allowed(a, op, res) && Refines(s', F.Apply(a, op, res)) && Bound(s) == Bound(s')
  {
    hide InodeInv, Names, Contents, Handles;
    var p, size := op.path, op.size;
    HandleOf(s.db, s.open, a.sizes, p);
    NodeOf(s.db, a.nodes, p);
    HandlesResized(s.db, s.open, a.sizes, p, size);
    SizeStored(s.db, a.nodes, p, size, Bound(s));
    assert s'.open == s.open[p := s.open[p].(size := size)];
  }

  // Read

  lemma ReadStep(s: Sys, a: F.Fs, op: F.Op, res: F.Res, s': Sys)
    requires op.Read? && Refines(s, a) && Rules(s, op) && Next(s, op, res, s')
    ensures F.Allowed(a, op, res) && Refines(s', F.Apply(a, op, res)) && Bound(s) == Bound(s')
  {
    hide InodeInv, Names, Contents, FileAgrees;
    var p := op.path;
    NodeOf(s.db, a.nodes, p);
    FileOf(s.db, a.nodes, p);
    ReadAgrees(s.db, s.open[p], a.nodes[p], op.off, op.n, op.buf, res.count, res.error, res.buf);
  }

  lemma ReadAgrees(m: Tree, attr: Attr, f: F.Node, off: nat, n: nat, buf0: seq<Byte>, count: nat, error: Err, buf: seq<Byte>)
    requires f.File? && FileAgrees(m, attr.ino, f) && n <= |buf0|
    requires ReadOutcome(m, attr, n, off, buf0, buf, count, error)
    ensures F.ReadAllowed(f, attr.size, off, n, buf0, count, error, buf)
  {
    if off <= attr.size {
      forall i | 0 <= i < count
        ensures off + i in f.bytes ==> buf[i] == f.bytes[off + i]
        ensures Floor(off + i) !in f.blocks ==> buf[i] == 0
      {
        assert buf[i] == ByteAt(m, attr.ino, off + i);
      }
    }
  }
}
