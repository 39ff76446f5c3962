/** Directories as prefix scans over the sorted namespace: dbfs_cursorset, dbfs_dopen, dbfs_readdir, dbfs_deld. */
module Directory {
  import opened CStrings
  import opened Keys
  import opened Store
  import opened Paths
  import opened Attributes
  import opened Filler

  ghost predicate CanonicalTree(m: Tree) {
    forall k :: k in m && k.Dentry? ==> Canonical(k.path)
  }

  // The listing of a directory, as a function of the store

  /** The entries after pos that a scan of the locator emits. */
  ghost function Showing(m: Tree, locator: CString, pos: Key): (ks: set<Key>) {
    set k | k in m && k.Dentry? && Emitted(locator, k.path) && Lt(pos, k)
  }

  function EntryOf(m: Tree, locator: CString, k: Key): Entry
    requires k in m && k.Dentry? && locator <= k.path
  {
    Entry(NameAfter(locator, k.path), m[k].attr.kind)
  }

  ghost function EntriesOf(m: Tree, locator: CString, ks: seq<Key>): seq<Entry>
    requires forall k :: k in ks ==> k in m && k.Dentry? && locator <= k.path
  {
    seq(|ks|, i requires 0 <= i < |ks| => assert ks[i] in ks; EntryOf(m, locator, ks[i]))
  }

  /** What a scan that continues after pos has still to emit, in key order. */
  ghost function Remaining(m: Tree, locator: CString, pos: Key): seq<Entry> {
    SortIsAscendingListing(Showing(m, locator, pos));
    EntriesOf(m, locator, Sort(Showing(m, locator, pos)))
  }

  /** What a fresh scan emits. */
  ghost function Listing(m: Tree, locator: CString): seq<Entry> {
    Remaining(m, locator, Dentry(locator))
  }

  ghost function ListedKeys(m: Tree, locator: CString): seq<Key> {
    Sort(Showing(m, locator, Dentry(locator)))
  }

  lemma EmittedIsAfter(locator: CString, p: CString)
    requires Emitted(locator, p)
    ensures locator < p && Lt(Dentry(locator), Dentry(p))
  {
    assert StripSlashes([]) == [];
    assert |p[|locator|..]| == |p| - |locator|;
    PrefixIsLeast(locator, p);
    StrCmpOpposite(locator, p);
  }

  /** A fresh scan emits, in strictly ascending key order, one entry for each stored path that has the locator as a
      proper prefix and a slash-free name after it; and no other. */
  lemma ListingIsExact(m: Tree, locator: CString)
    ensures var ks := ListedKeys(m, locator);
            && Ascending(ks)
            && (forall k :: k in ks <==> k in m && k.Dentry? && Emitted(locator, k.path))
            && |Listing(m, locator)| == |ks|
            && forall i :: 0 <= i < |ks| ==>
                 && ks[i] in m && ks[i].Dentry? && locator <= ks[i].path
                 && Listing(m, locator)[i] == EntryOf(m, locator, ks[i])
                 && Listing(m, locator)[i] == Entry(StripSlashes(ks[i].path[|locator|..]), m[ks[i]].attr.kind)
  {
    var s := Showing(m, locator, Dentry(locator));
    SortIsAscendingListing(s);
    forall k ensures k in s <==> k in m && k.Dentry? && Emitted(locator, k.path) {
      if k in m && k.Dentry? && Emitted(locator, k.path) {
        EmittedIsAfter(locator, k.path);
      }
    }
    forall i | 0 <= i < |ListedKeys(m, locator)| ensures ListedKeys(m, locator)[i] in s {
      assert ListedKeys(m, locator)[i] in Sort(s);
    }
  }

  /** No stored sibling's last name extends the locator's own with a slash-free rest. */
  ghost predicate NoNameSibling(m: Tree, locator: CString) {
    !exists k :: k in m && k.Dentry? && ExtendsName(locator, k.path) && SLASH !in k.path[|locator|..]
  }

  /** The scan shows every stored child, and nothing else exactly when there is no such sibling. */
  lemma ListsChildrenExactly(m: Tree, locator: CString)
    requires CanonicalTree(m) && Canonical(locator)
    ensures (forall k :: k in ListedKeys(m, locator) <==>
               k in m && k.Dentry? && k.path != ROOT && Canonical(k.path) && Parent(k.path) == locator)
       <==> NoNameSibling(m, locator)
    ensures forall k :: k in m && k.Dentry? && k.path != ROOT && Parent(k.path) == locator ==>
              k in ListedKeys(m, locator)
  {
    ListingIsExact(m, locator);
    forall k | k in m && k.Dentry?
      ensures Emitted(locator, k.path) <==>
        (k.path != ROOT && Parent(k.path) == locator) ||
        (ExtendsName(locator, k.path) && SLASH !in k.path[|locator|..])
      ensures k.path != ROOT && Parent(k.path) == locator ==> !ExtendsName(locator, k.path)
    {
      EmittedPaths(locator, k.path);
      if k.path != ROOT && Parent(k.path) == locator {
        ParentIsPrefix(k.path);
      }
    }
  }

  /** Without one no name is listed twice. */
  lemma NamesAreDistinct(m: Tree, locator: CString, i: nat, j: nat)
    requires CanonicalTree(m) && Canonical(locator) && NoNameSibling(m, locator)
    requires i < j < |Listing(m, locator)|
    ensures Listing(m, locator)[i].name != Listing(m, locator)[j].name
  {
    hide Listing, ListedKeys, Emitted, NameAfter, Canonical;
    ListsChildrenExactly(m, locator);
    ListingIsExact(m, locator);
    var ks := ListedKeys(m, locator);
    assert ks[i] in ks && ks[j] in ks;
    NameDeterminesChild(locator, ks[i].path);
    NameDeterminesChild(locator, ks[j].path);
    CompareAntisymmetric(ks[i], ks[j]);
  }

  /** The paths of a listing are in dictionary order, and without such a sibling so are its names: of two of them the
      earlier is a proper prefix of the later, or has the smaller byte where they first differ. */
  lemma ListingIsSorted(m: Tree, locator: CString, i: nat, j: nat)
    requires i < j < |Listing(m, locator)|
    ensures var ks := ListedKeys(m, locator);
            j < |ks| && ks[i].Dentry? && ks[j].Dentry? && LexLess(ks[i].path, ks[j].path)
    ensures CanonicalTree(m) && Canonical(locator) && NoNameSibling(m, locator) ==>
              LexLess(Listing(m, locator)[i].name, Listing(m, locator)[j].name)
  {
    hide Listing, ListedKeys, Emitted, NameAfter, Canonical, LexLess, NoNameSibling, StrCmp, CanonicalTree, Parent;
    ListingIsExact(m, locator);
    var ks := ListedKeys(m, locator);
    var p, q := ks[i].path, ks[j].path;
    StrCmpIsLex(p, q);
    if CanonicalTree(m) && Canonical(locator) && NoNameSibling(m, locator) {
      ListsChildrenExactly(m, locator);
      assert ks[i] in ks && ks[j] in ks;
      NameDeterminesChild(locator, p);
      NameDeterminesChild(locator, q);
      var front := locator + (if locator == ROOT then [] else [SLASH]);
      StrCmpSameFront(front, NameAfter(locator, p), NameAfter(locator, q));
      StrCmpIsLex(NameAfter(locator, p), NameAfter(locator, q));
    }
  }

  // One move of the cursor

  /** The next entry is emitted: it is the head of what remains. */
  lemma ScanEmits(m: Tree, locator: CString, pos: Key, k: Key)
    requires IsSuccessor(m, pos, k) && k.Dentry? && Emitted(locator, k.path)
    ensures Remaining(m, locator, pos) == [EntryOf(m, locator, k)] + Remaining(m, locator, k)
  {
    hide EntriesOf, EntryOf, NameAfter, Sort, Ascending;
    var s := Showing(m, locator, pos);
    SuccessorSplits(m, locator, pos, k);
    SortHead(s, k);
    SortIsAscendingListing(s);
    SortIsAscendingListing(s - {k});
    EntriesCons(m, locator, k, Sort(s - {k}));
  }

  lemma EntriesCons(m: Tree, locator: CString, k: Key, ks: seq<Key>)
    requires forall j :: j in [k] + ks ==> j in m && j.Dentry? && locator <= j.path
    ensures k in [k] + ks && forall j :: j in ks ==> j in [k] + ks
    ensures EntriesOf(m, locator, [k] + ks) == [EntryOf(m, locator, k)] + EntriesOf(m, locator, ks)
  {
    hide NameAfter;
    assert forall i :: 1 <= i < |[k] + ks| ==> ([k] + ks)[i] == ks[i - 1];
  }

  /** The next key is passed over: nothing that remains is lost. */
  lemma ScanSkips(m: Tree, locator: CString, pos: Key, k: Key)
    requires IsSuccessor(m, pos, k) && !(k.Dentry? && Emitted(locator, k.path))
    ensures Remaining(m, locator, pos) == Remaining(m, locator, k)
  {
    SuccessorSplits(m, locator, pos, k);
    assert Showing(m, locator, k) == Showing(m, locator, pos);
  }

  lemma SuccessorSplits(m: Tree, locator: CString, pos: Key, k: Key)
    requires IsSuccessor(m, pos, k)
    ensures Showing(m, locator, k) == Showing(m, locator, pos) - {k}
  {
    forall j | j in m ensures Lt(pos, j) && j != k <==> Lt(k, j) {
      CompareAntisymmetric(k, j);
      if Lt(k, j) {
        CompareTransitive(pos, k, j);
      }
    }
  }

  /** The first key that is not an entry with the locator as prefix ends the listing. */
  lemma ScanEnds(m: Tree, locator: CString, k: Key)
    requires Le(Dentry(locator), k)
    requires !(k.Dentry? && locator <= k.path)
    ensures Remaining(m, locator, k) == []
  {
    forall j | j in Showing(m, locator, k) ensures false {
      PrefixInterval(locator, Dentry(locator), k, j);
    }
    assert Showing(m, locator, k) == {};
  }

  lemma ScanExhausted(m: Tree, locator: CString, pos: Key)
    requires !HasSuccessor(m, pos)
    ensures Remaining(m, locator, pos) == []
  {
    assert Showing(m, locator, pos) == {};
  }

  ghost function KeysAfter(m: Tree, pos: Key): set<Key> {
    set k | k in m && Lt(pos, k)
  }

  lemma CursorAdvances(m: Tree, pos: Key, k: Key)
    requires IsSuccessor(m, pos, k)
    ensures |KeysAfter(m, k)| < |KeysAfter(m, pos)|
    ensures forall l :: Le(l, pos) ==> Le(l, k)
  {
    CompareAntisymmetric(k, k);
    forall j | j in KeysAfter(m, k) ensures j in KeysAfter(m, pos) {
      CompareTransitive(pos, k, j);
    }
    assert k in KeysAfter(m, pos) - KeysAfter(m, k);
    SmallerSet(KeysAfter(m, k), KeysAfter(m, pos), k);
    forall l | Le(l, pos) ensures Le(l, k) {
      CompareTransitive(l, pos, k);
    }
  }

  lemma SmallerSet(a: set<Key>, b: set<Key>, x: Key)
    requires a <= b && x in b && x !in a
    ensures |a| < |b|
  {
    var rest := b - {x};
    assert a <= rest;
    SubsetIsSmaller(a, rest);
  }

  lemma {:induction false} SubsetIsSmaller(a: set<Key>, b: set<Key>)
    requires a <= b
    ensures |a| <= |b|
  {
    if a != {} {
      var x :| x in a;
      SubsetIsSmaller(a - {x}, b - {x});
    }
  }

  // The operations

  method CursorSet(dh: DbfsHandle) returns (error: Err)
    requires dh.key == Dentry(dh.locator)
    modifies dh
    ensures dh.key == old(dh.key)
    ensures error == Success || error == ENOENT || error == EIO
    ensures dh.dbp.reliable ==> error != EIO
    ensures error == Success ==>
              && Dentry(dh.locator) in dh.dbp.recs && dh.pos == Dentry(dh.locator)
              && dh.attr == dh.dbp.recs[Dentry(dh.locator)].attr
    ensures error == ENOENT ==> Dentry(dh.locator) !in dh.dbp.recs
  {
    var rc := dh.dbp.OpenCursor();
    if rc != Success {
      return EIO;
    }
    var rec;
    rc, rec := dh.dbp.Get(dh.key);
    if rc != Success {
      return if rc == DbNotFound then ENOENT else EIO;
    }
    dh.pos, dh.attr := dh.key, rec.attr;
    return Success;
  }

  method DOpen(dbp: Db, locator: CString) returns (error: Err, dh: DbfsHandle)
    ensures fresh(dh) && dh.dbp == dbp && dh.locator == locator
    ensures error == Success ==> Dentry(locator) in dbp.recs && dh.pos == Dentry(locator)
    ensures error == ENOENT ==> Dentry(locator) !in dbp.recs
    ensures error == Success || error == ENOENT || (error == EIO && !dbp.reliable)
  {
    dh := new DbfsHandle(locator, dbp);
    error := CursorSet(dh);
  }

  /** What one dbfs_readdir call does to the listing that remained: the filler took n entries from its front; a
      refused entry is stashed by the filler and left behind by the cursor; a failed cursor move loses nothing. */
  ghost predicate Scanned(remaining: seq<Entry>, s: Sink, n: nat, remaining': seq<Entry>, s': Sink, error: Err) {
    && Fed(s, remaining, n, s', error)
    && match error
       case Success => n == |remaining| && remaining' == []
       case ENOBUFS => remaining' == remaining[n + 1..]
       case EIO => remaining' == remaining[n..]
       case _ => false
  }

  /** dbfs_readdir with mf_filler as its filler. keyIsRoot is the outcome of the comparison of the handle's key buffer
      with "/": a resumed scan may find another path there, so the flag is arbitrary for the root. */
  method ReadDir(dh: DbfsHandle, sink: DirSink, keyIsRoot: bool) returns (error: Err, ghost n: nat)
    requires CanonicalTree(dh.dbp.recs) && Canonical(dh.locator)
    requires keyIsRoot ==> dh.locator == ROOT
    requires Le(Dentry(dh.locator), dh.pos)
    modifies dh, sink
    ensures Le(Dentry(dh.locator), dh.pos) && Le(old(dh.pos), dh.pos)
    ensures Scanned(Remaining(dh.dbp.recs, dh.locator, old(dh.pos)), old(sink.State()), n,
                    Remaining(dh.dbp.recs, dh.locator, dh.pos), sink.State(), error)
    ensures dh.dbp.reliable ==> error != EIO
  {
    hide Remaining, Fed, KeysAfter, Canonical;
    ghost var m, locator := dh.dbp.recs, dh.locator;
    ghost var es := Remaining(m, locator, dh.pos);
    ghost var s0 := sink.State();
    error, n := Success, 0;
    FedNone(s0, es);
    CompareAntisymmetric(dh.pos, dh.pos);
    while error == Success
      invariant error == Success || error == ENOBUFS
      invariant Le(Dentry(locator), dh.pos) && Le(old(dh.pos), dh.pos)
      invariant n <= |es| && (error == ENOBUFS ==> n < |es|) && Fed(s0, es, n, sink.State(), error)
      invariant Remaining(m, locator, dh.pos) == if error == Success then es[n..] else es[n + 1..]
      decreases error == Success, |KeysAfter(m, dh.pos)|
    {
      var rc, k, rec := dh.dbp.Next(dh.pos);
      if rc != Success {
        if rc == DbNotFound {
          ScanExhausted(m, locator, dh.pos);
        } else {
          FedUntilFault(s0, es, n, sink.State());
          error := EIO;
        }
        break;
      }
      CursorAdvances(m, dh.pos, k);
      ghost var from := dh.pos;
      dh.pos := k;
      if !k.Dentry? {
        ScanSkips(m, locator, from, k);
        ScanEnds(m, locator, k);
        break;
      }
      dh.attr := rec.attr;
      var entry := k.path;
      if keyIsRoot {
        if SLASH in entry[1..] {
          RootBranchAgrees(entry);
          ScanSkips(m, locator, from, k);
          continue;
        }
      } else {
        if StrStr(entry, dh.locator) != 0 {
          ScanSkips(m, locator, from, k);
          ScanEnds(m, locator, k);
          break;
        }
      }
      RootBranchAgrees(entry);
      var name := StripSlashes(entry[|dh.locator|..]);
      if name != [] {
        if SLASH in name {
          ScanSkips(m, locator, from, k);
          continue;
        }
        ScanEmits(m, locator, from, k);
        TailOfSlice(es, n, EntryOf(m, locator, k), Remaining(m, locator, k));
        ghost var mid := sink.State();
        error := sink.MfFiller(Entry(name, dh.attr.kind));
        ghost var took := if error == Success then 1 else 0;
        PushedIsFed(mid, EntryOf(m, locator, k), Remaining(m, locator, k));
        FedThen(s0, es, n, mid, took, sink.State(), error);
        n := n + took;
      } else {
        ScanSkips(m, locator, from, k);
      }
    }
  }

  /** For canonical paths the root branch passes over exactly what the general branch with locator "/" passes over,
      so it makes no difference that a resumed scan of the root no longer takes it. */
  lemma RootBranchAgrees(p: CString)
    requires Canonical(p)
    ensures ROOT <= p
    ensures SLASH in p[1..] <==> SLASH in NameAfter(ROOT, p)
    ensures Emitted(ROOT, p) <==> p != ROOT && SLASH !in p[1..]
  {
    if p != ROOT {
      assert p[0 + 1] != SLASH by {
        assert p[0] == SLASH;
      }
      assert NameAfter(ROOT, p) == p[1..];
    }
  }

  // Removing a directory

  ghost predicate Extends(m: Tree, locator: CString, k: Key) {
    k in m && k.Dentry? && locator < k.path
  }

  /** Some stored path has the locator as a proper string prefix. */
  ghost predicate HasExtension(m: Tree, locator: CString) {
    exists k :: Extends(m, locator, k)
  }

  /** Some stored path lies below the locator, at any depth. */
  ghost predicate HasDescendant(m: Tree, locator: CString) {
    exists k :: Extends(m, locator, k) && !ExtendsName(locator, k.path)
  }

  /** Some stored path has the locator as its parent. */
  ghost predicate HasChild(m: Tree, locator: CString) {
    exists k :: IsChild(m, locator, k)
  }

  ghost predicate IsChild(m: Tree, locator: CString, k: Key) {
    k in m && k.Dentry? && Canonical(k.path) && k.path != ROOT && Parent(k.path) == locator
  }

  /** Some stored path, at any depth, extends the last name of the locator. */
  ghost predicate HasNameExtension(m: Tree, locator: CString) {
    exists k :: Extends(m, locator, k) && ExtendsName(locator, k.path)
  }

  lemma StripKeepsLast(s: CString)
    requires s != [] && s[|s| - 1] != SLASH
    ensures StripSlashes(s) != []
  {
  }

  /** The successor of the locator alone tells whether any stored path extends it. */
  lemma SuccessorDecides(m: Tree, locator: CString, k: Key)
    requires IsSuccessor(m, Dentry(locator), k)
    ensures HasExtension(m, locator) <==> k.Dentry? && locator < k.path
  {
    if k.Dentry? && locator < k.path {
      assert Extends(m, locator, k);
    } else {
      forall j | Extends(m, locator, j) ensures false {
        PrefixIsLeast(locator, j.path);
        StrCmpOpposite(locator, j.path);
        PrefixInterval(locator, Dentry(locator), k, j);
        CompareAntisymmetric(Dentry(locator), k);
      }
    }
  }

  lemma NoSuccessorNoExtension(m: Tree, locator: CString)
    requires !HasSuccessor(m, Dentry(locator))
    ensures !HasExtension(m, locator)
  {
    forall j | Extends(m, locator, j) ensures Lt(Dentry(locator), j) {
      PrefixIsLeast(locator, j.path);
      StrCmpOpposite(locator, j.path);
    }
  }

  /** dbfs_deld. The cursor is lent the handle's key buffer (dbfs_initsearch), so a move that succeeds leaves another key
      there: left is that key, the one found if it was stored in place, and anything if the buffer was moved. */
  method DelD(dh: DbfsHandle, left: Key) returns (error: Err)
    requires CanonicalTree(dh.dbp.recs) && dh.locator != [] && dh.key == Dentry(dh.locator)
    modifies dh
    ensures error == Success || error == ENOTEMPTY || error == ENOENT || error == EIO
    ensures dh.dbp.reliable ==> error != EIO
    ensures error == Success ==> Dentry(dh.locator) in dh.dbp.recs && !HasExtension(dh.dbp.recs, dh.locator)
    ensures error == ENOTEMPTY ==> Dentry(dh.locator) in dh.dbp.recs && HasExtension(dh.dbp.recs, dh.locator)
    ensures error == ENOENT ==> Dentry(dh.locator) !in dh.dbp.recs
    ensures error == Success ==>
              dh.key == if HasSuccessor(dh.dbp.recs, Dentry(dh.locator)) then left else Dentry(dh.locator)
  {
    error := CursorSet(dh);
    if error != Success {
      return;
    }
    var rc, k, rec := dh.dbp.Next(dh.pos);
    if rc != Success {
      if rc == DbNotFound {
        NoSuccessorNoExtension(dh.dbp.recs, dh.locator);
        return Success;
      }
      return EIO;
    }
    dh.pos, dh.key := k, left;
    SuccessorDecides(dh.dbp.recs, dh.locator, k);
    if !k.Dentry? {
      return Success;
    }
    dh.attr := rec.attr;
    var entry := k.path;
    if StrStr(entry, dh.locator) != 0 {
      return Success;
    }
    assert entry != dh.locator by {
      CompareAntisymmetric(Dentry(dh.locator), k);
    }
    assert entry[|dh.locator|..][|entry| - |dh.locator| - 1] == entry[|entry| - 1];
    StripKeepsLast(entry[|dh.locator|..]);
    var name := StripSlashes(entry[|dh.locator|..]);
    if name != [] {
      error := ENOTEMPTY;
    }
  }

  /** With "/a" and "/ab" stored, "/a" has no children, but it lists "b" and cannot be removed. */
  lemma SiblingIsMistakenForChild(a: Attr, b: Attr)
    ensures var pa, pab := [SLASH, 97], [SLASH, 97, 98];
            var m: Tree := map[Dentry(ROOT) := DentryRec(a), Dentry(pa) := DentryRec(a), Dentry(pab) := DentryRec(b)];
            && CanonicalTree(m)
            && HasExtension(m, pa) && !HasDescendant(m, pa)
            && Dentry(pab) in ListedKeys(m, pa) && NameAfter(pa, pab) == [98] && Parent(pab) == ROOT
  {
    hide Sort, EntriesOf, Remaining, Ascending;
    var pa: CString, pab: CString := [SLASH, 97], [SLASH, 97, 98];
    var m: Tree := map[Dentry(ROOT) := DentryRec(a), Dentry(pa) := DentryRec(a), Dentry(pab) := DentryRec(b)];
    assert pab[|pa|..] == [98];
    assert Extends(m, pa, Dentry(pab));
    assert LastSlash(pab) == 0;
    ListingIsExact(m, pa);
  }
}
