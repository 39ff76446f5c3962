/** What the namespace promises, for runs that keep only the rules that names need: any number of creates, any handles,
    any byte ranges, and deletes that may find the counter's key or a block's in their buffer. */
module Parents {
  import opened CStrings
  import opened Keys
  import opened Store
  import opened Paths
  import opened Blocks
  import opened Stream
  import opened Directory
  import opened Dbfs
  import opened System
  import I = Inodes
  import R = Runs
  import F = FlatFs

  const A_DIR: CString := [SLASH, 97]
  const B_DIR: CString := [SLASH, 98]
  const C_BELOW: CString := [SLASH, 98, SLASH, 99]

  /** Entries are made in an existing container. A path is not open when it is deleted; and a delete that goes by the
      key in its buffer finds there no entry that is open or has a child. */
  ghost predicate NameRules(s: Sys, op: F.Op) {
    match op
    case Create(p, _, _) => Canonical(p) && p != ROOT && HasKind(s.db, Parent(p), Container)
    case Delete(p, left) =>
      && p !in s.open
      && (KeyMatters(s.db, p) && left.Dentry? && left in s.db ==> left.path !in s.open && !HasChild(s.db, left.path))
    case _ => true
  }

  ghost predicate NamedRun(ss: seq<Sys>, ops: seq<F.Op>, rs: seq<F.Res>) {
    Trace(ss, ops, rs) && forall i :: 0 <= i < |ops| ==> NameRules(ss[i], ops[i])
  }

  /** Every entry but the root has a live container as its parent. */
  ghost predicate Closed(m: Tree) {
    forall p :: Dentry(p) in m && p != ROOT ==> Canonical(p) && HasKind(m, Parent(p), Container)
  }

  /** Each open path is stored, with the kind that its handle knows. */
  ghost predicate HandlesStored(s: Sys) {
    forall p :: p in s.open ==> HasKind(s.db, p, s.open[p].kind)
  }

  // One step

  /** A tree stays closed when a record goes, exactly unless it is an entry that has a child. */
  lemma RemovalKeepsClosed(m: Tree, g: Key)
    requires Closed(m) && g in m
    ensures Closed(m - {g}) <==> !(g.Dentry? && HasChild(m, g.path))
  {
    var m' := m - {g};
    if g.Dentry? && HasChild(m, g.path) {
      var k :| IsChild(m, g.path, k);
      ParentIsPrefix(k.path);
      assert Dentry(k.path) in m' && !HasKind(m', Parent(k.path), Container);
    } else {
      forall p | Dentry(p) in m' && p != ROOT ensures Canonical(p) && HasKind(m', Parent(p), Container) {
        assert Dentry(p) in m && HasKind(m, Parent(p), Container);
        assert g == Dentry(Parent(p)) ==> IsChild(m, Parent(p), Dentry(p));
      }
    }
  }

  lemma BlocksKeepClosed(m: Tree, k: Key)
    requires Closed(m) && k.Block?
    ensures Closed(m - {k})
  {
    if k in m {
      RemovalKeepsClosed(m, k);
    } else {
      assert m - {k} == m;
    }
  }

  lemma ChildExtendsParent(m: Tree, p: CString)
    requires HasChild(m, p)
    ensures HasExtension(m, p)
  {
    var k :| IsChild(m, p, k);
    ParentIsPrefix(k.path);
    assert Extends(m, p, k);
  }

  /** Only a container has children. */
  lemma ChildlessData(m: Tree, p: CString)
    requires Closed(m) && HasChild(m, p)
    ensures HasKind(m, p, Container)
  {
    var k :| IsChild(m, p, k);
  }

  /** A delete of any path, with any outcome and any key left in its buffer: the parents stay live exactly unless it
      succeeds in removing an entry that has a child. */
  lemma DeleteCloses(m: Tree, p: CString, left: Key, m': Tree, outcome: Outcome)
    requires Closed(m) && DeleteOutcome(m, p, left, m', outcome)
    ensures var gone := KeyLeft(m, p, left);
            Closed(m') <==> !(outcome == Returned(Success) && gone.Dentry? && HasChild(m, gone.path))
  {
    hide Closed, HasChild, HasExtension, HasSuccessor;
    if outcome == Returned(Success) {
      RemovalKeepsClosed(m, KeyLeft(m, p, left));
    } else if m' != m {
      BlocksKeepClosed(m, Block(InoOf(m, p), 0));
    }
  }

  lemma DeleteKeepsNames(s: Sys, op: F.Op, res: F.Res, s': Sys)
    requires op.Delete? && Closed(s.db) && HandlesStored(s) && NameRules(s, op) && Next(s, op, res, s')
    ensures Closed(s'.db) && HandlesStored(s')
  {
    hide Closed, HasChild, HasExtension, HasSuccessor, Lost;
    var p, left := op.path, op.left;
    var gone := KeyLeft(s.db, p, left);
    DeleteCloses(s.db, p, left, s'.db, if res.returned then Returned(res.error) else Looping);
    if HasChild(s.db, p) {
      ChildlessData(s.db, p);
      ChildExtendsParent(s.db, p);
    }
    assert res.returned && res.error == Success && gone.Dentry? ==> gone.path !in s.open && !HasChild(s.db, gone.path);
  }

  /** A write or a size change stores nothing but its handle's own record and blocks. */
  lemma StreamKeepsNames(s: Sys, op: F.Op, res: F.Res, s': Sys)
    requires (op.Write? || op.SetSize?) && Closed(s.db) && HandlesStored(s) && Next(s, op, res, s')
    ensures Closed(s'.db) && HandlesStored(s')
  {
    hide Closed;
    StreamKeepsKinds(s, op, res, s');
    SameKindsClosed(s.db, s'.db);
  }

  lemma StreamKeepsKinds(s: Sys, op: F.Op, res: F.Res, s': Sys)
    requires (op.Write? || op.SetSize?) && HandlesStored(s) && Next(s, op, res, s')
    ensures forall q, k :: HasKind(s'.db, q, k) <==> HasKind(s.db, q, k)
    ensures HandlesStored(s')
  {
    hide Written;
    if op.Write? {
      I.WriteOutside(s, op, res, s');
    }
    assert HasKind(s.db, op.path, s.open[op.path].kind) && s'.open[op.path].kind == s.open[op.path].kind;
    forall q, k ensures HasKind(s'.db, q, k) <==> HasKind(s.db, q, k) {
    }
  }

  lemma SameKindsClosed(m: Tree, m': Tree)
    requires Closed(m) && forall q, k :: HasKind(m', q, k) <==> HasKind(m, q, k)
    ensures Closed(m')
  {
    hide Canonical, Parent;
    forall p | Dentry(p) in m' && p != ROOT ensures Canonical(p) && HasKind(m', Parent(p), Container) {
      assert HasKind(m', p, m'[Dentry(p)].attr.kind);
    }
  }

  lemma NamesStep(s: Sys, op: F.Op, res: F.Res, s': Sys)
    requires Closed(s.db) && HandlesStored(s) && NameRules(s, op) && Next(s, op, res, s')
    ensures Closed(s'.db) && HandlesStored(s')
  {
    if op.Delete? {
      DeleteKeepsNames(s, op, res, s');
    } else if op.Write? || op.SetSize? {
      StreamKeepsNames(s, op, res, s');
    } else {
      hide ReadOutcome, HasChild;
      assert forall q, k :: HasKind(s.db, q, k) ==> HasKind(s'.db, q, k);
    }
  }

  lemma {:induction false} NamesAlong(ss: seq<Sys>, ops: seq<F.Op>, rs: seq<F.Res>, i: nat)
    requires NamedRun(ss, ops, rs) && i <= |ops|
    ensures Closed(ss[i].db) && HandlesStored(ss[i])
  {
    hide Closed, HandlesStored, NameRules, Next;
    if i == 0 {
      FreshIsClosed();
    } else {
      NamesAlong(ss, ops, rs, i - 1);
      NamesStep(ss[i - 1], ops[i - 1], rs[i - 1], ss[i]);
    }
  }

  lemma FreshIsClosed()
    ensures Closed(Fresh().db) && HandlesStored(Fresh())
  {
  }

  // Whole runs

  /** Every entry but the root has a live container as its parent. KeptHandleMakesOrphan shows why no handle may be kept
      across a delete, and OrphanIsMade why no entry with a child may be taken. */
  lemma ParentsLive(ss: seq<Sys>, ops: seq<F.Op>, rs: seq<F.Res>, i: nat, p: CString)
    requires NamedRun(ss, ops, rs) && i <= |ops|
    requires Dentry(p) in ss[i].db && p != ROOT
    ensures Canonical(p) && HasKind(ss[i].db, Parent(p), Container)
  {
    NamesAlong(ss, ops, rs, i);
  }

  /** Climbing from anything stored below a directory ends at one of its stored children. */
  lemma {:induction false} DescendantHasChild(m: Tree, p: CString, q: CString)
    requires Closed(m) && Canonical(p) && Dentry(q) in m && p < q && !ExtendsName(p, q)
    ensures HasChild(m, p)
    decreases |q|
  {
    assert Canonical(q);
    if Parent(q) == p {
      assert IsChild(m, p, Dentry(q));
    } else {
      ParentStaysBelow(p, q);
      DescendantHasChild(m, p, Parent(q));
    }
  }

  /** What keeps a directory of such a tree from being removed: a child, or a path that extends its last name. */
  lemma ExtensionsAre(m: Tree, p: CString)
    requires Closed(m) && Canonical(p)
    ensures HasExtension(m, p) <==> HasChild(m, p) || HasNameExtension(m, p)
  {
    if HasExtension(m, p) {
      var k :| Extends(m, p, k);
      if !ExtendsName(p, k.path) {
        DescendantHasChild(m, p, k.path);
      }
    }
    if HasChild(m, p) {
      ChildExtendsParent(m, p);
    }
  }

  /** The exact outcome of removing a container at any point of such a run, when no I/O operation fails: the call
      returns; it is refused exactly when the container has a child or some stored path extends its last name. Otherwise
      it succeeds exactly when the key in its buffer is that of some record, as its own is. */
  lemma RefusalIsExact(ss: seq<Sys>, ops: seq<F.Op>, rs: seq<F.Res>, i: nat, p: CString, left: Key, res: F.Res, s': Sys)
    requires NamedRun(ss, ops, rs) && i <= |ops|
    requires p != ROOT && HasKind(ss[i].db, p, Container)
    requires Next(ss[i], F.Delete(p, left), res, s') && NoFault(ss[i], F.Delete(p, left), res)
    ensures res.returned
    ensures res.error == ENOTEMPTY <==> HasChild(ss[i].db, p) || HasNameExtension(ss[i].db, p)
    ensures res.error == Success <==>
              !HasChild(ss[i].db, p) && !HasNameExtension(ss[i].db, p) && KeyLeft(ss[i].db, p, left) in ss[i].db
    ensures res.error == ENOTEMPTY || res.error == Success || res.error == ENOENT
    ensures s'.db == if res.error == Success then ss[i].db - {KeyLeft(ss[i].db, p, left)} else ss[i].db
  {
    hide HasExtension, HasChild, HasNameExtension, HasSuccessor, NameRules, Lost;
    NamesAlong(ss, ops, rs, i);
    assert Canonical(p);
    ExtensionsAre(ss[i].db, p);
  }

  /** Directory scans and deletes at any point of such a run work on canonical paths. */
  lemma PathsAreCanonical(ss: seq<Sys>, ops: seq<F.Op>, rs: seq<F.Res>, i: nat)
    requires NamedRun(ss, ops, rs) && i <= |ops|
    ensures CanonicalTree(ss[i].db)
  {
    NamesAlong(ss, ops, rs, i);
  }

  // Deletes that go by another key

  /** A delete of any path at any point of such a run: the parents stay live exactly unless it succeeds in removing an
      entry that has a child. */
  lemma DeleteKeepsParents(ss: seq<Sys>, ops: seq<F.Op>, rs: seq<F.Res>, i: nat,
                           p: CString, left: Key, m': Tree, outcome: Outcome)
    requires NamedRun(ss, ops, rs) && i <= |ops|
    requires DeleteOutcome(ss[i].db, p, left, m', outcome)
    ensures var gone := KeyLeft(ss[i].db, p, left);
            Closed(m') <==> !(outcome == Returned(Success) && gone.Dentry? && HasChild(ss[i].db, gone.path))
  {
    hide Closed, HasChild, HasExtension, HasSuccessor, NameRules, Next;
    NamesAlong(ss, ops, rs, i);
    DeleteCloses(ss[i].db, p, left, m', outcome);
  }

  /** When the cursor stores the next key in place, removing a container leaves the container, and the parents stay live
      exactly unless that next key is an entry with a child: both can be seen before the call. */
  lemma InPlaceDelete(ss: seq<Sys>, ops: seq<F.Op>, rs: seq<F.Res>, i: nat, p: CString, left: Key, m': Tree)
    requires NamedRun(ss, ops, rs) && i <= |ops|
    requires HasKind(ss[i].db, p, Container) && IsSuccessor(ss[i].db, Dentry(p), left)
    requires DeleteOutcome(ss[i].db, p, left, m', Returned(Success))
    ensures Dentry(p) in m' && m' == ss[i].db - {left}
    ensures Closed(m') <==> !(left.Dentry? && HasChild(ss[i].db, left.path))
  {
    hide Closed, HasChild, HasExtension, NameRules, Next;
    OwnEntryGoesInPlace(ss[i].db, p, left, m');
    DeleteKeepsParents(ss, ops, rs, i, p, left, m', Returned(Success));
  }

  /** After creating the containers "/a", "/b" and "/b/c", deleting "/a" in place takes "/b" and leaves "/b/c" without a
      parent. */
  lemma OrphanIsMade() returns (ss: seq<Sys>, ops: seq<F.Op>, rs: seq<F.Res>, m': Tree)
    ensures NamedRun(ss, ops, rs) && R.Run(ss, ops, rs) && |ops| == 4
    ensures ops[1..] == [F.Create(A_DIR, Container, 0), F.Create(B_DIR, Container, 0), F.Create(C_BELOW, Container, 0)]
    ensures IsSuccessor(ss[4].db, Dentry(A_DIR), Dentry(B_DIR))
    ensures DeleteOutcome(ss[4].db, A_DIR, Dentry(B_DIR), m', Returned(Success))
    ensures Dentry(A_DIR) in m' && !Closed(m')
  {
    hide Rules, NameRules, Next, Closed, MountOutcome;
    var s1 := Mounted();
    ThreeNames();
    var s2 := Made(s1, A_DIR, Container);
    var s3 := Made(s2, B_DIR, Container);
    var s4 := Made(s3, C_BELOW, Container);
    ss := [Fresh(), s1, s2, s3, s4];
    var ok := F.Done(Success);
    ops := [F.Mount, F.Create(A_DIR, Container, 0), F.Create(B_DIR, Container, 0), F.Create(C_BELOW, Container, 0)];
    rs := [ok, ok, ok, ok];
    assert NamedRun(ss, ops, rs) && R.Run(ss, ops, rs);
    NextAfterA(s4.db);
    m' := s4.db - {Dentry(B_DIR)};
    SuccessorDecides(s4.db, A_DIR, Dentry(B_DIR));
    assert IsChild(s4.db, B_DIR, Dentry(C_BELOW));
    InPlaceDelete(ss, ops, rs, 4, A_DIR, Dentry(B_DIR), m');
  }

  lemma Mounted() returns (s: Sys)
    ensures NameRules(Fresh(), F.Mount) && Rules(Fresh(), F.Mount)
    ensures Next(Fresh(), F.Mount, F.Done(Success), s)
    ensures s.mounted && s.creates == 0 && s.open == map[]
    ensures s.db.Keys == {FsInfo, Dentry(ROOT)} && HasKind(s.db, ROOT, Container)
  {
    var m := FreshTree()[FsInfo := FsInfoRec(ROOT_INO + BATCH)];
    assert MountOutcome(FreshTree(), m, ROOT_INO, Success);
    s := Sys(m, true, ROOT_INO, 0, map[]);
  }

  lemma Made(s: Sys, p: CString, kind: Kind) returns (s': Sys)
    requires s.mounted && s.creates < BATCH && Dentry(p) !in s.db
    requires Canonical(p) && p != ROOT && HasKind(s.db, Parent(p), Container)
    ensures NameRules(s, F.Create(p, kind, 0)) && Rules(s, F.Create(p, kind, 0))
    ensures Next(s, F.Create(p, kind, 0), F.Done(Success), s')
    ensures s'.mounted && s'.creates == s.creates + 1 && s'.open == s.open && s'.db.Keys == s.db.Keys + {Dentry(p)}
    ensures HasKind(s'.db, p, kind) && forall q, k :: HasKind(s.db, q, k) ==> HasKind(s'.db, q, k)
  {
    var m := s.db[Dentry(p) := DentryRec(Attr(kind, 0, s.last, 0))];
    s' := s.(db := m, last := U64(s.last + 1), creates := s.creates + 1);
  }

  lemma ThreeNames()
    ensures Canonical(A_DIR) && Canonical(B_DIR) && Canonical(C_BELOW)
    ensures Parent(A_DIR) == Parent(B_DIR) == ROOT && Parent(C_BELOW) == B_DIR
  {
    assert LastSlash(A_DIR) == LastSlash(B_DIR) == 0 && LastSlash(C_BELOW) == 2;
  }

  lemma NextAfterA(m: Tree)
    requires m.Keys == {FsInfo, Dentry(ROOT), Dentry(A_DIR), Dentry(B_DIR), Dentry(C_BELOW)}
    ensures IsSuccessor(m, Dentry(A_DIR), Dentry(B_DIR))
  {
    assert A_DIR[1..] == [97] && B_DIR[1..] == [98] && C_BELOW[1..] == [98, SLASH, 99] && ROOT[1..] == [];
    assert StrCmp([97], []) == 97 && StrCmp([97], [98]) == -1;
    assert StrCmp(A_DIR, B_DIR) == -1 && StrCmp(A_DIR, ROOT) == 97;
    PrefixIsLeast(B_DIR, C_BELOW);
    CompareAntisymmetric(Dentry(A_DIR), Dentry(A_DIR));
    CompareAntisymmetric(Dentry(B_DIR), Dentry(B_DIR));
  }

  // Handles that outlive their entry

  /** Storing a size through a handle keeps the parents live exactly when the handle's path still has a live container as
      its parent, and is not itself a parent that the stored record would turn into something else. */
  lemma HandleStores(s: Sys, p: CString, size: nat, s': Sys)
    requires Closed(s.db) && p in s.open && Next(s, F.SetSize(p, size), F.Done(Success), s')
    ensures Closed(s'.db) <==> && (p == ROOT || (Canonical(p) && HasKind(s.db, Parent(p), Container)))
                               && (s.open[p].kind == Container || !HasChild(s.db, p))
  {
    hide Canonical, Parent;
    var m, m' := s.db, s'.db;
    if p != ROOT && Canonical(p) {
      ParentIsPrefix(p);
    }
    if HasChild(m, p) {
      var k :| IsChild(m, p, k);
      ParentIsPrefix(k.path);
      assert Dentry(k.path) in m' && (HasKind(m', Parent(k.path), Container) <==> s.open[p].kind == Container);
    }
    forall q | q != p && q != ROOT && Dentry(q) in m' && (s.open[p].kind == Container || !HasChild(m, p))
      ensures Canonical(q) && HasKind(m', Parent(q), Container)
    {
      assert Parent(q) == p ==> IsChild(m, p, Dentry(q));
    }
    assert Dentry(p) in m';
  }

  /** A handle kept across a delete puts its entry back: after "/b" and "/b/c" were made, "/b/c" opened and given a byte,
      and both deleted, another size change through the handle stores "/b/c" without a parent. Every call but the
      delete of the open path keeps the rules. */
  lemma KeptHandleMakesOrphan() returns (ss: seq<Sys>, ops: seq<F.Op>, rs: seq<F.Res>)
    ensures Trace(ss, ops, rs) && |ops| == 8
    ensures ops[1..] == [F.Create(B_DIR, Container, 0), F.Create(C_BELOW, Data, 0), F.Open(C_BELOW),
                         F.SetSize(C_BELOW, 1), F.Delete(C_BELOW, Dentry(C_BELOW)), F.Delete(B_DIR, Dentry(B_DIR)),
                         F.SetSize(C_BELOW, 1)]
    ensures forall i :: 0 <= i < 8 && i != 5 ==> NameRules(ss[i], ops[i])
    ensures !Closed(ss[8].db)
  {
    hide NameRules, Next, Closed, Fresh;
    var s1, s2, s3, s4, s5 := OneByteFile();
    var s6, s7, s8 := DeletedAndStored(s5);
    ss := [Fresh(), s1, s2, s3, s4, s5, s6, s7, s8];
    var ok := F.Done(Success);
    ops := [F.Mount, F.Create(B_DIR, Container, 0), F.Create(C_BELOW, Data, 0), F.Open(C_BELOW), F.SetSize(C_BELOW, 1),
            F.Delete(C_BELOW, Dentry(C_BELOW)), F.Delete(B_DIR, Dentry(B_DIR)), F.SetSize(C_BELOW, 1)];
    rs := [ok, ok, ok, ok, ok, F.Deleted(true, Success, F.PathGone(C_BELOW)),
           F.Deleted(true, Success, F.PathGone(B_DIR)), ok];
  }

  lemma OneByteFile() returns (s1: Sys, s2: Sys, s3: Sys, s4: Sys, s5: Sys)
    ensures NameRules(Fresh(), F.Mount) && Next(Fresh(), F.Mount, F.Done(Success), s1)
    ensures NameRules(s1, F.Create(B_DIR, Container, 0))
    ensures Next(s1, F.Create(B_DIR, Container, 0), F.Done(Success), s2)
    ensures NameRules(s2, F.Create(C_BELOW, Data, 0)) && Next(s2, F.Create(C_BELOW, Data, 0), F.Done(Success), s3)
    ensures NameRules(s3, F.Open(C_BELOW)) && Next(s3, F.Open(C_BELOW), F.Done(Success), s4)
    ensures NameRules(s4, F.SetSize(C_BELOW, 1)) && Next(s4, F.SetSize(C_BELOW, 1), F.Done(Success), s5)
    ensures s5.mounted && s5.open.Keys == {C_BELOW}
    ensures s5.db.Keys == {FsInfo, Dentry(ROOT), Dentry(B_DIR), Dentry(C_BELOW)}
    ensures HasKind(s5.db, B_DIR, Container) && HasKind(s5.db, C_BELOW, Data) && !IsEmptyData(s5.db, C_BELOW)
  {
    hide NameRules, Rules, Next, IsEmptyData;
    ThreeNames();
    s1 := Mounted();
    s2 := Made(s1, B_DIR, Container);
    s3 := Made(s2, C_BELOW, Data);
    s4, s5 := OpenedAndSized(s3, C_BELOW);
  }

  lemma DeletedAndStored(s5: Sys) returns (s6: Sys, s7: Sys, s8: Sys)
    requires s5.mounted && s5.open.Keys == {C_BELOW}
    requires s5.db.Keys == {FsInfo, Dentry(ROOT), Dentry(B_DIR), Dentry(C_BELOW)}
    requires HasKind(s5.db, B_DIR, Container) && HasKind(s5.db, C_BELOW, Data) && !IsEmptyData(s5.db, C_BELOW)
    ensures Next(s5, F.Delete(C_BELOW, Dentry(C_BELOW)), F.Deleted(true, Success, F.PathGone(C_BELOW)), s6)
    ensures NameRules(s6, F.Delete(B_DIR, Dentry(B_DIR)))
    ensures Next(s6, F.Delete(B_DIR, Dentry(B_DIR)), F.Deleted(true, Success, F.PathGone(B_DIR)), s7)
    ensures NameRules(s7, F.SetSize(C_BELOW, 1)) && Next(s7, F.SetSize(C_BELOW, 1), F.Done(Success), s8)
    ensures !Closed(s8.db)
  {
    hide NameRules, Next, HasExtension, Closed;
    ThreeNames();
    s6 := DeletedByOwnKey(s5, C_BELOW);
    NothingExtendsB(s6.db);
    s7 := DeletedByOwnKey(s6, B_DIR);
    s8 := SizedAgain(s7, C_BELOW);
  }

  lemma OpenedAndSized(s: Sys, p: CString) returns (s1: Sys, s2: Sys)
    requires s.mounted && HasKind(s.db, p, Data)
    ensures NameRules(s, F.Open(p)) && Next(s, F.Open(p), F.Done(Success), s1)
    ensures NameRules(s1, F.SetSize(p, 1)) && Next(s1, F.SetSize(p, 1), F.Done(Success), s2)
    ensures s2.mounted && s2.open.Keys == s.open.Keys + {p} && s2.db.Keys == s.db.Keys
    ensures HasKind(s2.db, p, Data) && !IsEmptyData(s2.db, p)
    ensures forall q, k :: HasKind(s.db, q, k) ==> HasKind(s2.db, q, k)
  {
    var attr := s.db[Dentry(p)].attr;
    assert OpenOutcome(s.db, p, attr, Success);
    s1 := s.(open := s.open[p := attr]);
    var sized := attr.(size := 1);
    s2 := s1.(db := s1.db[Dentry(p) := DentryRec(sized)], open := s1.open[p := sized]);
  }

  lemma DeletedByOwnKey(s: Sys, p: CString) returns (s': Sys)
    requires s.mounted && p != ROOT && Removable(s.db, p)
    ensures Next(s, F.Delete(p, Dentry(p)), F.Deleted(true, Success, F.PathGone(p)), s')
    ensures s' == s.(db := s.db - {Dentry(p)})
    ensures p !in s.open && !HasExtension(s.db, p) ==> NameRules(s, F.Delete(p, Dentry(p)))
  {
    hide HasSuccessor, HasExtension, HasChild;
    s' := s.(db := s.db - {Dentry(p)});
    if HasChild(s.db, p) {
      ChildExtendsParent(s.db, p);
    }
  }

  lemma NothingExtendsB(m: Tree)
    requires m.Keys == {FsInfo, Dentry(ROOT), Dentry(B_DIR)}
    ensures !HasExtension(m, B_DIR)
  {
  }

  lemma SizedAgain(s: Sys, p: CString) returns (s': Sys)
    requires s.mounted && p in s.open && Canonical(p) && p != ROOT && Dentry(Parent(p)) !in s.db
    ensures NameRules(s, F.SetSize(p, 1)) && Next(s, F.SetSize(p, 1), F.Done(Success), s')
    ensures !Closed(s'.db)
  {
    ParentIsPrefix(p);
    var sized := s.open[p].(size := 1);
    s' := s.(db := s.db[Dentry(p) := DentryRec(sized)], open := s.open[p := sized]);
    assert Dentry(p) in s'.db && !HasKind(s'.db, Parent(p), Container);
  }
}
