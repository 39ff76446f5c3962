/** The store object and its namespace operations: mkdbfs, dbfs_initstore, dbfs_create, dbfs_delete, dbfs_sopen, and the
    counter record they share. */
module Dbfs {
  import opened CStrings
  import opened Keys
  import opened Store
  import opened Paths
  import opened Attributes
  import opened Stream
  import opened Directory

  const BATCH: nat := 1000

  /** A call either returns or is still inside its loop after any number of laps observed. */
  datatype Outcome = Returned(error: Err) | Looping

  ghost predicate SizesFit(m: Tree) {
    forall k :: k in m && k.Dentry? ==> m[k].attr.size < TWO63
  }

  // What the operations promise, on values

  ghost predicate CreateOutcome(m: Tree, last: nat, path: CString, kind: Kind, mode: nat,
                                m': Tree, last': nat, error: Err)
  {
    && last' == U64(last + 1)
    && match error
       case Success => Dentry(path) !in m && m' == m[Dentry(path) := DentryRec(Attr(kind, mode, last, 0))]
       case EINVAL => m' == m
       case _ => false
  }

  ghost predicate MountOutcome(m: Tree, m': Tree, last: nat, error: Err) {
    match error
    case Success => FsInfo in m && last == m[FsInfo].lastIno && m' == m[FsInfo := FsInfoRec(U64(last + BATCH))]
    case EIO => m' == m
    case _ => false
  }

  ghost predicate OpenOutcome(m: Tree, path: CString, attr: Attr, error: Err) {
    match error
    case Success => Dentry(path) in m && attr == m[Dentry(path)].attr
    case ENOENT => Dentry(path) !in m
    case EIO => true
    case _ => false
  }

  predicate HasKind(m: Tree, path: CString, kind: Kind) {
    Dentry(path) in m && m[Dentry(path)].attr.kind == kind
  }

  /** A data entry whose size is zero: dbfs_dels never finishes on it. */
  predicate IsEmptyData(m: Tree, path: CString) {
    HasKind(m, path, Data) && m[Dentry(path)].attr.size == 0
  }

  /** The laps of dbfs_dels over an empty file can remove its first block, if that is still stored, and nothing else. */
  ghost predicate AtMostFirstBlock(m: Tree, path: CString, m': Tree) {
    m' == m || (IsEmptyData(m, path) && m' == m - {Block(m[Dentry(path)].attr.ino, 0)})
  }

  /** The key in the handle's buffer when dbfs_dela reads it: looking for entries below a container, the cursor has
      stored into that buffer, unless there was no key to move to. */
  ghost function KeyLeft(m: Tree, path: CString, left: Key): Key {
    if HasKind(m, path, Container) && HasSuccessor(m, Dentry(path)) then left else Dentry(path)
  }

  ghost predicate DeleteOutcome(m: Tree, path: CString, left: Key, m': Tree, outcome: Outcome) {
    match outcome
    case Looping => path != ROOT && IsEmptyData(m, path) && AtMostFirstBlock(m, path, m')
    case Returned(error) =>
      match error
      case Success =>
        && path != ROOT && Removable(m, path)
        && KeyLeft(m, path, left) in m && m' == m - {KeyLeft(m, path, left)}
      case ENOTEMPTY => path != ROOT && m' == m && HasKind(m, path, Container) && HasExtension(m, path)
      case ENOENT =>
        && path != ROOT && m' == m
        && (Dentry(path) !in m || (Removable(m, path) && KeyLeft(m, path, left) !in m))
      case EINVAL => m' == m && (path == ROOT || HasKind(m, path, Other))
      case EIO => path != ROOT && AtMostFirstBlock(m, path, m')
      case _ => false
  }

  /** A container that no stored path extends, or a data entry that is not empty. */
  ghost predicate Removable(m: Tree, path: CString) {
    (HasKind(m, path, Container) && !HasExtension(m, path)) || (HasKind(m, path, Data) && !IsEmptyData(m, path))
  }

  /** A delete that succeeds removes the named entry, and nothing else, exactly when its buffer still held that entry's
      key: always for a data entry, for a container when there was no later key or the buffer was left alone. */
  lemma OwnEntryGoes(m: Tree, path: CString, left: Key, m': Tree)
    requires DeleteOutcome(m, path, left, m', Returned(Success))
    ensures m' == m - {Dentry(path)}
       <==> HasKind(m, path, Data) || !HasSuccessor(m, Dentry(path)) || left == Dentry(path)
    ensures Dentry(path) in m' <==> m' != m - {Dentry(path)}
  {
    var gone := KeyLeft(m, path, left);
    assert gone !in m' && Dentry(path) in m;
  }

  /** When the cursor stores the key it finds in place, a caller can tell beforehand: the named entry goes exactly when
      it is a data entry or there is no later key. */
  lemma OwnEntryGoesInPlace(m: Tree, path: CString, left: Key, m': Tree)
    requires HasSuccessor(m, Dentry(path)) ==> IsSuccessor(m, Dentry(path), left)
    requires DeleteOutcome(m, path, left, m', Returned(Success))
    ensures m' == m - {Dentry(path)} <==> HasKind(m, path, Data) || !HasSuccessor(m, Dentry(path))
    ensures HasKind(m, path, Container) && HasSuccessor(m, Dentry(path)) ==> m' == m - {left} && Dentry(path) in m'
  {
    OwnEntryGoes(m, path, left, m');
    CompareAntisymmetric(Dentry(path), Dentry(path));
  }

  /** When the cursor stores the key it finds in place, removing a container removes the next key of the tree and
      leaves the container: with "/a" and "/b" stored, deleting "/a" removes "/b". */
  lemma NextEntryGoesInPlace(a: Attr, b: Attr)
    requires a.kind == Container
    ensures var pa, pb := [SLASH, 97], [SLASH, 98];
            var m: Tree := map[Dentry(ROOT) := DentryRec(a), Dentry(pa) := DentryRec(a), Dentry(pb) := DentryRec(b)];
            && IsSuccessor(m, Dentry(pa), Dentry(pb))
            && DeleteOutcome(m, pa, Dentry(pb), m - {Dentry(pb)}, Returned(Success))
            && Dentry(pa) in m - {Dentry(pb)}
  {
    var pa: CString, pb: CString := [SLASH, 97], [SLASH, 98];
    var m: Tree := map[Dentry(ROOT) := DentryRec(a), Dentry(pa) := DentryRec(a), Dentry(pb) := DentryRec(b)];
    assert pa[1..] == [97] && pb[1..] == [98] && StrCmp(pa, pb) == -1;
    assert ROOT[1..] == [] && StrCmp(pa, ROOT) == 97 && StrCmp(pa, pa) == StrCmp(pb, pb) == 0 by {
      StrCmpOpposite(pa, pa);
      StrCmpOpposite(pb, pb);
    }
    assert IsSuccessor(m, Dentry(pa), Dentry(pb));
    SuccessorDecides(m, pa, Dentry(pb));
  }

  /** It may also be a block of a file: with "/a" written and "/z" the last entry, deleting the empty container "/z"
      removes the first block of "/a". */
  lemma FileBlockGoesInPlace(root: Attr, a: Attr, z: Attr, bytes: Buffer)
    requires z.kind == Container
    ensures var pa, pz, block := [SLASH, 97], [SLASH, 122], Block(a.ino, 0);
            var m: Tree := map[Dentry(ROOT) := DentryRec(root), Dentry(pa) := DentryRec(a), Dentry(pz) := DentryRec(z),
                               block := BlockRec(bytes)];
            && IsSuccessor(m, Dentry(pz), block)
            && DeleteOutcome(m, pz, block, m - {block}, Returned(Success))
  {
    var pa: CString, pz: CString, block := [SLASH, 97], [SLASH, 122], Block(a.ino, 0);
    var m: Tree := map[Dentry(ROOT) := DentryRec(root), Dentry(pa) := DentryRec(a), Dentry(pz) := DentryRec(z),
                       block := BlockRec(bytes)];
    assert pa[1..] == [97] && pz[1..] == [122] && ROOT[1..] == [];
    assert StrCmp([122], [97]) == 25 && StrCmp([122], []) == 122;
    assert StrCmp(pz, pa) == 25 && StrCmp(pz, ROOT) == 122;
    CompareAntisymmetric(Dentry(pz), Dentry(pz));
    assert IsSuccessor(m, Dentry(pz), block);
    SuccessorDecides(m, pz, block);
  }

  /** With no I/O failure, deleting a data entry comes back exactly when its size is above zero; it then removes the
      entry and leaves every block of the file in the tree. */
  lemma DataDeleteReturns(m: Tree, path: CString, left: Key, m': Tree, outcome: Outcome)
    requires path != ROOT && HasKind(m, path, Data)
    requires DeleteOutcome(m, path, left, m', outcome) && outcome != Returned(EIO)
    ensures outcome == Returned(Success) <==> m[Dentry(path)].attr.size > 0
    ensures outcome == Looping <==> m[Dentry(path)].attr.size == 0
    ensures outcome == Returned(Success) ==>
              Dentry(path) !in m' && forall i, o: nat :: Block(i, o) in m ==> Block(i, o) in m'
  {
  }

  /** What mkdbfs leaves behind. */
  function FreshTree(): Tree {
    map[Dentry(ROOT) := DentryRec(Attr(Container, ROOT_MODE, ROOT_INO, 0)), FsInfo := FsInfoRec(ROOT_INO)]
  }

  // fsinfo.c

  method CrupdFsinfo(dbp: Db, lastIno: nat, create: bool) returns (error: Err)
    modifies dbp
    ensures error == Success || error == EIO
    ensures error == Success && create ==> FsInfo !in old(dbp.recs)
    ensures dbp.reliable ==> (error == Success <==> !create || FsInfo !in old(dbp.recs))
    ensures dbp.recs == if error == Success then old(dbp.recs)[FsInfo := FsInfoRec(lastIno)] else old(dbp.recs)
  {
    var rc;
    if create {
      rc := dbp.PutNew(FsInfo, FsInfoRec(lastIno));
    } else {
      rc := dbp.Put(FsInfo, FsInfoRec(lastIno));
    }
    error := if rc == Success then Success else EIO;
  }

  method FetchFsinfo(dbp: Db) returns (error: Err, lastIno: nat)
    ensures error == Success || error == EIO
    ensures error == Success ==> FsInfo in dbp.recs && lastIno == dbp.recs[FsInfo].lastIno
    ensures dbp.reliable ==> (error == Success <==> FsInfo in dbp.recs)
  {
    var rc, rec := dbp.Get(FsInfo);
    if rc != Success {
      return EIO, 0;
    }
    return Success, rec.lastIno;
  }

  // mkdbfs.c

  /** Neither record is overwritten. The database that the program has just created is empty: then a call that fails
      leaves nothing, or a root without a counter, and no such store can be mounted. */
  method MkDbfs(dbp: Db) returns (error: Err)
    modifies dbp
    ensures old(dbp.recs) == map[] && error == Success ==> dbp.recs == FreshTree()
    ensures old(dbp.recs) == map[] && error != Success ==> FsInfo !in dbp.recs
    ensures var made := old(dbp.recs)[Dentry([47]) := DentryRec(Attr(Container, 420, 1, 0))];
            match error
            case Success =>
              && Dentry([47]) !in old(dbp.recs) && FsInfo !in old(dbp.recs)
              && dbp.recs == made[FsInfo := FsInfoRec(1)]
            case EINVAL => dbp.recs == old(dbp.recs)
            case EIO => Dentry([47]) !in old(dbp.recs) && dbp.recs == made
            case _ => false
    ensures dbp.reliable ==> (error == Success <==> Dentry([47]) !in old(dbp.recs) && FsInfo !in old(dbp.recs))
  {
    error := CreateAttr(dbp, ROOT, Container, ROOT_MODE, ROOT_INO);
    if error != Success {
      return;
    }
    error := CrupdFsinfo(dbp, ROOT_INO, true);
  }

  // dbfs.c

  class DbfsStore {
    const dbp: Db
    var lastInode: nat

    constructor (dbp: Db, lastInode: nat)
      ensures this.dbp == dbp && this.lastInode == lastInode
    {
      this.dbp, this.lastInode := dbp, lastInode;
    }

    /** dbfs_create: the counter moves on even when the entry cannot be stored. */
    method Create(locator: CString, mode: nat, kind: Kind) returns (error: Err)
      modifies this, dbp
      ensures CreateOutcome(old(dbp.recs), old(lastInode), locator, kind, mode, dbp.recs, lastInode, error)
      ensures error == Success ==> dbp.recs[Dentry(locator)] == DentryRec(Attr(kind, mode, old(lastInode), 0))
      ensures dbp.reliable ==> (error == Success <==> Dentry(locator) !in old(dbp.recs))
    {
      var ino := lastInode;
      lastInode := U64(lastInode + 1);
      error := CreateAttr(dbp, locator, kind, mode, ino);
    }

    /** dbfs_delete, with its loop over an empty file observed for at most budget laps, and left as what a cursor move
        leaves in the handle's key buffer. */
    method Delete(locator: CString, budget: nat, left: Key) returns (outcome: Outcome)
      requires CanonicalTree(dbp.recs) && SizesFit(dbp.recs) && Canonical(locator)
      modifies dbp
      ensures DeleteOutcome(old(dbp.recs), locator, left, dbp.recs, outcome)
      ensures dbp.reliable ==> outcome != Returned(EIO)
      ensures outcome == Looping && budget > 0 ==> Block(old(dbp.recs)[Dentry(locator)].attr.ino, 0) !in dbp.recs
    {
      if StrCmp(locator, ROOT) == 0 {
        StrCmpOpposite(locator, ROOT);
        return Returned(EINVAL);
      }
      assert locator != ROOT by {
        StrCmpOpposite(locator, ROOT);
      }
      var dh := new DbfsHandle(locator, dbp);
      var error;
      error, dh.attr := ReadAttr(dbp, locator, dh.attr);
      if error != Success {
        return Returned(error);
      }
      match dh.attr.kind
      case Container =>
        error := DelD(dh, left);
        if error == Success {
          error := DelA(dh);
        }
        outcome := Returned(error);
      case Data =>
        var returned;
        returned, error := DelS(dh, budget);
        if !returned {
          return Looping;
        }
        if error == Success {
          error := DelA(dh);
        }
        outcome := Returned(error);
      case Other =>
        outcome := Returned(EINVAL);
    }
  }

  /** dbfs_initstore: the mount takes the counter as its own and reserves a batch by moving the stored one on. */
  method InitStore(dbp: Db) returns (error: Err, store: DbfsStore)
    modifies dbp
    ensures fresh(store) && store.dbp == dbp
    ensures MountOutcome(old(dbp.recs), dbp.recs, store.lastInode, error)
    ensures dbp.reliable ==> (error == Success <==> FsInfo in old(dbp.recs))
  {
    var lastIno;
    error, lastIno := FetchFsinfo(dbp);
    store := new DbfsStore(dbp, lastIno);
    if error != Success {
      return;
    }
    error := CrupdFsinfo(dbp, U64(lastIno + BATCH), false);
  }

  method SOpen(dbp: Db, locator: CString) returns (error: Err, dh: DbfsHandle)
    ensures fresh(dh) && dh.dbp == dbp && dh.locator == locator
    ensures OpenOutcome(dbp.recs, locator, dh.attr, error)
    ensures dbp.reliable ==> error == if Dentry(locator) in dbp.recs then Success else ENOENT
  {
    dh := new DbfsHandle(locator, dbp);
    error, dh.attr := ReadAttr(dbp, locator, dh.attr);
  }
}
