/** Directory sessions over a store whose entries come and go between the calls. */
module ChangingStore {
  import opened CStrings
  import opened Keys
  import opened Store
  import opened Paths
  import opened Filler
  import opened Directory
  import opened MangooFuse

  /** Between two calls: where the cursor stands, and what the stream holds. */
  datatype Spot = Spot(pos: Key, sink: Sink)

  /** All entries accepted by the first i calls. */
  function Received(spots: seq<Spot>, i: nat): seq<Entry>
    requires i < |spots|
  {
    if i == 0 then [] else Received(spots, i - 1) + spots[i].sink.entries
  }

  /** Calls as in a Session, but call i finds the tree trees[i]; the cursor keeps its key. */
  ghost predicate LiveSession(locator: CString, trees: seq<Tree>, spots: seq<Spot>, plans: seq<seq<bool>>) {
    && |spots| == |plans| + 1 == |trees| + 1
    && spots[0].pos == Dentry(locator) && spots[0].sink.curOff == 0 && spots[0].sink.saved == None
    && (forall i :: 0 <= i < |plans| ==> Accepts(plans[i], 0) && (i == 0 ==> Accepts(plans[i], 1)))
    && forall i :: 0 <= i < |plans| ==> LiveCall(locator, trees, spots, plans, i)
  }

  /** What the contract of Readdir says of call i. */
  ghost predicate LiveCall(locator: CString, trees: seq<Tree>, spots: seq<Spot>, plans: seq<seq<bool>>, i: nat)
    requires |spots| == |plans| + 1 == |trees| + 1 && i < |plans|
  {
    && Le(spots[i].pos, spots[i + 1].pos)
    && Call(Remaining(trees[i], locator, spots[i].pos), spots[i].sink, |Received(spots, i)|, plans[i],
            Remaining(trees[i], locator, spots[i + 1].pos), spots[i + 1].sink, Success)
  }

  // What one call reads

  /** The entries that a cursor passes on its way from one key to another. */
  ghost function Passed(m: Tree, locator: CString, from: Key, to: Key): set<Key> {
    set k | k in Showing(m, locator, from) && Le(k, to)
  }

  ghost function PassedEntries(m: Tree, locator: CString, from: Key, to: Key): seq<Entry> {
    SortIsAscendingListing(Passed(m, locator, from, to));
    EntriesOf(m, locator, Sort(Passed(m, locator, from, to)))
  }

  lemma {:induction false} SortSplits(a: set<Key>, b: set<Key>)
    requires forall x, y :: x in a && y in b ==> Lt(x, y)
    ensures Sort(a + b) == Sort(a) + Sort(b)
  {
    hide BtCompare;
    if a == {} {
      assert a + b == b;
    } else {
      var k := Least(a);
      SortHead(a + b, k);
      SortSplits(a - {k}, b);
      CompareAntisymmetric(k, k);
      assert a + b - {k} == (a - {k}) + b;
    }
  }

  lemma ShowingSplits(m: Tree, locator: CString, from: Key, to: Key)
    requires Le(from, to)
    ensures Showing(m, locator, from) == Passed(m, locator, from, to) + Showing(m, locator, to)
    ensures forall x, y :: x in Passed(m, locator, from, to) && y in Showing(m, locator, to) ==> Lt(x, y)
  {
    hide Emitted;
    forall k | k in m ensures Lt(from, k) && !Le(k, to) <==> Lt(to, k) {
      CompareAntisymmetric(k, to);
      if Lt(to, k) {
        CompareTransitive(from, to, k);
      }
    }
    forall x, y | x in Passed(m, locator, from, to) && y in Showing(m, locator, to) ensures Lt(x, y) {
      CompareTransitive(x, to, y);
    }
  }

  lemma EntriesJoin(m: Tree, locator: CString, a: seq<Key>, b: seq<Key>)
    requires forall k :: k in a + b ==> k in m && k.Dentry? && locator <= k.path
    ensures (forall k :: k in a ==> k in a + b) && forall k :: k in b ==> k in a + b
    ensures EntriesOf(m, locator, a + b) == EntriesOf(m, locator, a) + EntriesOf(m, locator, b)
  {
    hide EntryOf;
  }

  /** What remains is what the cursor passes, followed by what remains from there. */
  lemma RemainingSplits(m: Tree, locator: CString, from: Key, to: Key)
    requires Le(from, to)
    ensures Remaining(m, locator, from) == PassedEntries(m, locator, from, to) + Remaining(m, locator, to)
  {
    hide EntryOf, EntriesOf, Ascending, Sort, Lt, Le;
    var a, b := Passed(m, locator, from, to), Showing(m, locator, to);
    ShowingSplits(m, locator, from, to);
    SortSplits(a, b);
    SortIsAscendingListing(a);
    SortIsAscendingListing(b);
    SortIsAscendingListing(a + b);
    EntriesJoin(m, locator, Sort(a), Sort(b));
  }

  // What all calls read

  /** The keys of the entries that the first i calls read, delivered or stashed. */
  ghost function ReadKeys(locator: CString, trees: seq<Tree>, spots: seq<Spot>, i: nat): seq<Key>
    requires i <= |trees| < |spots|
  {
    if i == 0 then []
    else ReadKeys(locator, trees, spots, i - 1) + Sort(Passed(trees[i - 1], locator, spots[i - 1].pos, spots[i].pos))
  }

  ghost function ReadEntries(locator: CString, trees: seq<Tree>, spots: seq<Spot>, i: nat): seq<Entry>
    requires i <= |trees| < |spots|
  {
    if i == 0 then []
    else ReadEntries(locator, trees, spots, i - 1)
         + PassedEntries(trees[i - 1], locator, spots[i - 1].pos, spots[i].pos)
  }

  /** What was read is delivered, except for a stash. */
  lemma {:induction false} ReadIsReceived(locator: CString, trees: seq<Tree>, spots: seq<Spot>, plans: seq<seq<bool>>,
                                          i: nat)
    requires LiveSession(locator, trees, spots, plans) && 1 <= i <= |plans|
    ensures Received(spots, i) + Pending(spots[i].sink, []) == [DOT, DOTDOT] + ReadEntries(locator, trees, spots, i)
    ensures Resumable(spots[i].sink) && spots[i].sink.curOff == |Received(spots, i)| >= 2
  {
    hide Call, Remaining, PassedEntries;
    var p, q, m := spots[i - 1], spots[i], trees[i - 1];
    var before, after := Remaining(m, locator, p.pos), Remaining(m, locator, q.pos);
    var passed := PassedEntries(m, locator, p.pos, q.pos);
    assert LiveCall(locator, trees, spots, plans, i - 1);
    RemainingSplits(m, locator, p.pos, q.pos);
    assert Pending(q.sink, after) == Pending(q.sink, []) + after;
    if i == 1 {
      FirstCall(before, p.sink, plans[0], after, q.sink, Success);
      assert Received(spots, 1) == q.sink.entries;
      assert Received(spots, 0) == [];
      SameFront(q.sink.entries + Pending(q.sink, []), [DOT, DOTDOT] + passed, after);
      Regroup(q.sink.entries, Pending(q.sink, []), after);
      Regroup([DOT, DOTDOT], passed, after);
    } else {
      ReadIsReceived(locator, trees, spots, plans, i - 1);
      ResumedCall(before, p.sink, |Received(spots, i - 1)|, plans[i - 1], after, q.sink);
      assert Pending(p.sink, before) == Pending(p.sink, []) + before;
      Regroup(q.sink.entries, Pending(q.sink, []), after);
      Regroup(Pending(p.sink, []), passed, after);
      SameFront(q.sink.entries + Pending(q.sink, []), Pending(p.sink, []) + passed, after);
      Regroup(Received(spots, i - 1), q.sink.entries, Pending(q.sink, []));
      Regroup(Received(spots, i - 1), Pending(p.sink, []), passed);
      Regroup([DOT, DOTDOT], ReadEntries(locator, trees, spots, i - 1), passed);
    }
  }

  lemma SameFront<T>(a: seq<T>, b: seq<T>, c: seq<T>)
    ensures a + c == b + c ==> a == b
  {
    if a + c == b + c {
      assert |a| == |b|;
      assert (a + c)[..|a|] == a && (b + c)[..|b|] == b;
    }
  }

  /** The entry e was read under the key k from one of the trees that the first i calls found. */
  ghost predicate ReadFrom(locator: CString, trees: seq<Tree>, spots: seq<Spot>, i: nat, k: Key, e: Entry)
    requires i <= |trees| < |spots|
  {
    exists j :: && 0 <= j < i && k in Passed(trees[j], locator, spots[j].pos, spots[j + 1].pos)
                && e == EntryOf(trees[j], locator, k)
  }

  lemma AscendingJoin(a: seq<Key>, b: seq<Key>, mid: Key)
    requires Ascending(a) && Ascending(b)
    requires (forall x :: x in a ==> Le(x, mid)) && forall y :: y in b ==> Lt(mid, y)
    ensures Ascending(a + b)
  {
    forall i, j | 0 <= i < |a| && 0 <= j < |b| ensures Lt(a[i], b[j]) {
      assert a[i] in a && b[j] in b;
      CompareTransitive(a[i], mid, b[j]);
    }
  }

  lemma CursorOnlyAdvances(locator: CString, trees: seq<Tree>, spots: seq<Spot>, plans: seq<seq<bool>>, i: nat)
    requires LiveSession(locator, trees, spots, plans) && i < |plans|
    ensures Le(spots[i].pos, spots[i + 1].pos)
    ensures forall k :: Le(k, spots[i].pos) ==> Le(k, spots[i + 1].pos)
  {
    hide Call;
    assert LiveCall(locator, trees, spots, plans, i);
    forall k | Le(k, spots[i].pos) ensures Le(k, spots[i + 1].pos) {
      CompareTransitive(k, spots[i].pos, spots[i + 1].pos);
    }
  }

  /** The keys that were read ascend, so that none is read twice. */
  lemma {:induction false} ReadsAscend(locator: CString, trees: seq<Tree>, spots: seq<Spot>, plans: seq<seq<bool>>, i: nat)
    requires LiveSession(locator, trees, spots, plans) && i <= |plans|
    ensures var ks := ReadKeys(locator, trees, spots, i);
            Ascending(ks) && forall k :: k in ks ==> Le(k, spots[i].pos)
  {
    hide LiveCall, Emitted, BtCompare, Sort;
    if i > 0 {
      ReadsAscend(locator, trees, spots, plans, i - 1);
      CursorOnlyAdvances(locator, trees, spots, plans, i - 1);
      var passed := Passed(trees[i - 1], locator, spots[i - 1].pos, spots[i].pos);
      SortIsAscendingListing(passed);
      AscendingJoin(ReadKeys(locator, trees, spots, i - 1), Sort(passed), spots[i - 1].pos);
    }
  }

  /** A key was read exactly if it was stored when a call passed it. */
  lemma {:induction false} ReadKeysAre(locator: CString, trees: seq<Tree>, spots: seq<Spot>, i: nat, k: Key)
    requires i <= |trees| < |spots|
    ensures k in ReadKeys(locator, trees, spots, i)
       <==> exists j :: 0 <= j < i && k in Passed(trees[j], locator, spots[j].pos, spots[j + 1].pos)
  {
    hide Passed, Sort, Ascending;
    if i > 0 {
      ReadKeysAre(locator, trees, spots, i - 1, k);
      SortIsAscendingListing(Passed(trees[i - 1], locator, spots[i - 1].pos, spots[i].pos));
    }
  }

  ghost predicate AllReadFrom(locator: CString, trees: seq<Tree>, spots: seq<Spot>, i: nat, ks: seq<Key>, es: seq<Entry>)
    requires i <= |trees| < |spots|
  {
    |es| == |ks| && forall d :: 0 <= d < |ks| ==> ReadFrom(locator, trees, spots, i, ks[d], es[d])
  }

  lemma NewlyRead(locator: CString, trees: seq<Tree>, spots: seq<Spot>, i: nat)
    requires i < |trees| < |spots|
    ensures AllReadFrom(locator, trees, spots, i + 1, Sort(Passed(trees[i], locator, spots[i].pos, spots[i + 1].pos)),
                        PassedEntries(trees[i], locator, spots[i].pos, spots[i + 1].pos))
  {
    hide EntryOf;
    var passed := Passed(trees[i], locator, spots[i].pos, spots[i + 1].pos);
    SortIsAscendingListing(passed);
    forall d | 0 <= d < |Sort(passed)| ensures Sort(passed)[d] in passed {
      assert Sort(passed)[d] in Sort(passed);
    }
  }

  lemma ReadBefore(locator: CString, trees: seq<Tree>, spots: seq<Spot>, i: nat, ks: seq<Key>, es: seq<Entry>)
    requires i < |trees| < |spots| && AllReadFrom(locator, trees, spots, i, ks, es)
    ensures AllReadFrom(locator, trees, spots, i + 1, ks, es)
  {
    hide Passed, EntryOf;
    forall d | 0 <= d < |ks| ensures ReadFrom(locator, trees, spots, i + 1, ks[d], es[d]) {
      assert ReadFrom(locator, trees, spots, i, ks[d], es[d]);
    }
  }

  lemma ReadJoin(locator: CString, trees: seq<Tree>, spots: seq<Spot>, i: nat,
                 ks1: seq<Key>, es1: seq<Entry>, ks2: seq<Key>, es2: seq<Entry>)
    requires i <= |trees| < |spots|
    requires AllReadFrom(locator, trees, spots, i, ks1, es1) && AllReadFrom(locator, trees, spots, i, ks2, es2)
    ensures AllReadFrom(locator, trees, spots, i, ks1 + ks2, es1 + es2)
  {
    hide ReadFrom;
  }

  /** What was read is the entry of its key in the tree of the call that read it. */
  lemma {:induction false} ReadEntriesAre(locator: CString, trees: seq<Tree>, spots: seq<Spot>, i: nat)
    requires i <= |trees| < |spots|
    ensures AllReadFrom(locator, trees, spots, i,
                        ReadKeys(locator, trees, spots, i), ReadEntries(locator, trees, spots, i))
  {
    hide AllReadFrom, PassedEntries, Passed;
    if i > 0 {
      ReadEntriesAre(locator, trees, spots, i - 1);
      var ks, es := ReadKeys(locator, trees, spots, i - 1), ReadEntries(locator, trees, spots, i - 1);
      var m, from, to := trees[i - 1], spots[i - 1].pos, spots[i].pos;
      ReadBefore(locator, trees, spots, i - 1, ks, es);
      NewlyRead(locator, trees, spots, i - 1);
      ReadJoin(locator, trees, spots, i, ks, es, Sort(Passed(m, locator, from, to)), PassedEntries(m, locator, from, to));
    } else {
      NothingRead(locator, trees, spots);
    }
  }

  lemma NothingRead(locator: CString, trees: seq<Tree>, spots: seq<Spot>)
    requires |trees| < |spots|
    ensures AllReadFrom(locator, trees, spots, 0, [], [])
  {
  }

  /** An entry that is stored in every tree so far was read exactly if the cursor has reached it. */
  lemma {:induction false} StableIsRead(locator: CString, trees: seq<Tree>, spots: seq<Spot>, plans: seq<seq<bool>>,
                                        i: nat, k: Key)
    requires LiveSession(locator, trees, spots, plans) && i <= |plans|
    requires k.Dentry? && Emitted(locator, k.path) && forall j :: 0 <= j < i ==> k in trees[j]
    ensures k in ReadKeys(locator, trees, spots, i) <==> Le(k, spots[i].pos)
  {
    hide Emitted, LiveCall;
    EmittedIsAfter(locator, k.path);
    if i == 0 {
      CompareAntisymmetric(k, spots[0].pos);
    } else {
      StableIsRead(locator, trees, spots, plans, i - 1, k);
      CursorOnlyAdvances(locator, trees, spots, plans, i - 1);
      CompareAntisymmetric(k, spots[i - 1].pos);
      SortIsAscendingListing(Passed(trees[i - 1], locator, spots[i - 1].pos, spots[i].pos));
    }
  }

  // The end of a session

  /** A call that delivers nothing had nothing left to deliver. */
  lemma EmptyCallIsLast(locator: CString, trees: seq<Tree>, spots: seq<Spot>, plans: seq<seq<bool>>, i: nat)
    requires LiveSession(locator, trees, spots, plans) && 2 <= i <= |plans| && spots[i].sink.entries == []
    ensures Remaining(trees[i - 1], locator, spots[i - 1].pos) == []
    ensures spots[i].sink.saved == None
  {
    hide Call, Remaining, Resumable;
    var p, q, m := spots[i - 1], spots[i], trees[i - 1];
    assert LiveCall(locator, trees, spots, plans, i - 1);
    ReadIsReceived(locator, trees, spots, plans, i - 1);
    ResumedCall(Remaining(m, locator, p.pos), p.sink, |Received(spots, i - 1)|, plans[i - 1],
                Remaining(m, locator, q.pos), q.sink);
    assert q.sink.entries + Pending(q.sink, Remaining(m, locator, q.pos)) == Pending(p.sink, Remaining(m, locator, p.pos));
  }

  lemma NothingRemains(m: Tree, locator: CString, pos: Key, k: Key)
    requires Remaining(m, locator, pos) == [] && k in m && k.Dentry? && Emitted(locator, k.path)
    ensures Le(k, pos)
  {
    hide EntryOf, Emitted;
    var s := Showing(m, locator, pos);
    SortIsAscendingListing(s);
    CompareAntisymmetric(k, pos);
    assert |Remaining(m, locator, pos)| == |Sort(s)| && k !in Sort(s);
    assert Lt(pos, k) ==> k in s;
  }

  /** Entries come and go, but once a call has delivered nothing, each entry that was stored in every tree of the
      session has been delivered exactly once. More exactly: besides the dots, the received entries belong to an ascending list
      of keys; each was stored under its key when it was read; and a key that was always stored is among them. */
  lemma StableEntriesDelivered(locator: CString, trees: seq<Tree>, spots: seq<Spot>, plans: seq<seq<bool>>, i: nat, k: Key)
    requires LiveSession(locator, trees, spots, plans) && 2 <= i <= |plans| && spots[i].sink.entries == []
    requires k.Dentry? && Emitted(locator, k.path) && forall j :: 0 <= j < i ==> k in trees[j]
    ensures var ks, got := ReadKeys(locator, trees, spots, i), Received(spots, i);
            && k in ks && Ascending(ks)
            && |got| >= 2 && got[..2] == [DOT, DOTDOT] && AllReadFrom(locator, trees, spots, i, ks, got[2..])
  {
    hide LiveCall, Emitted, Remaining, Passed, EntryOf, Resumable;
    EmptyCallIsLast(locator, trees, spots, plans, i);
    NothingRemains(trees[i - 1], locator, spots[i - 1].pos, k);
    CursorOnlyAdvances(locator, trees, spots, plans, i - 1);
    StableIsRead(locator, trees, spots, plans, i, k);
    ReadsAscend(locator, trees, spots, plans, i);
    ReadIsReceived(locator, trees, spots, plans, i);
    ReadEntriesAre(locator, trees, spots, i);
    var got := Received(spots, i);
    assert got + [] == got;
    assert got[2..] == ReadEntries(locator, trees, spots, i);
  }

  /** When no tree holds a sibling that extends the directory's name, no name is delivered twice either. */
  lemma NamesDeliveredOnce(locator: CString, trees: seq<Tree>, spots: seq<Spot>, plans: seq<seq<bool>>, i: nat,
                           d: nat, e: nat)
    requires LiveSession(locator, trees, spots, plans) && 1 <= i <= |plans| && Canonical(locator)
    requires forall j :: 0 <= j < i ==> CanonicalTree(trees[j]) && NoNameSibling(trees[j], locator)
    requires 2 <= d < e < |Received(spots, i)|
    ensures Received(spots, i)[d].name != Received(spots, i)[e].name
  {
    hide LiveCall, Emitted, Remaining, Passed, EntryOf, Resumable, Canonical, NoNameSibling, CanonicalTree, ReadFrom;
    ReadsAscend(locator, trees, spots, plans, i);
    ReadIsReceived(locator, trees, spots, plans, i);
    ReadEntriesAre(locator, trees, spots, i);
    var ks, es, got := ReadKeys(locator, trees, spots, i), ReadEntries(locator, trees, spots, i), Received(spots, i);
    assert (got + Pending(spots[i].sink, []))[d] == es[d - 2];
    assert (got + Pending(spots[i].sink, []))[e] == es[e - 2];
    ReadNameIsChild(locator, trees, spots, i, ks[d - 2], es[d - 2]);
    ReadNameIsChild(locator, trees, spots, i, ks[e - 2], es[e - 2]);
    assert Lt(ks[d - 2], ks[e - 2]);
    CompareAntisymmetric(ks[d - 2], ks[e - 2]);
  }

  lemma ReadNameIsChild(locator: CString, trees: seq<Tree>, spots: seq<Spot>, i: nat, k: Key, e: Entry)
    requires i <= |trees| < |spots| && Canonical(locator) && ReadFrom(locator, trees, spots, i, k, e)
    requires forall j :: 0 <= j < i ==> CanonicalTree(trees[j]) && NoNameSibling(trees[j], locator)
    ensures k.Dentry? && k.path == locator + (if locator == ROOT then [] else [SLASH]) + e.name
  {
    hide NameAfter, Canonical, Parent;
    var j :| && 0 <= j < i && k in Passed(trees[j], locator, spots[j].pos, spots[j + 1].pos)
             && e == EntryOf(trees[j], locator, k);
    EmittedPaths(locator, k.path);
    assert CanonicalTree(trees[j]) && NoNameSibling(trees[j], locator);
    NameDeterminesChild(locator, k.path);
  }

  /** All selected entries of all trees so far are in u. */
  ghost predicate Bounds(u: set<Key>, locator: CString, trees: seq<Tree>) {
    forall j, k :: 0 <= j < |trees| && k in trees[j] && k.Dentry? && Emitted(locator, k.path) ==> k in u
  }

  lemma {:induction false} AscendingInSet(ks: seq<Key>, u: set<Key>)
    requires Ascending(ks) && forall k :: k in ks ==> k in u
    ensures |ks| <= |u|
  {
    if ks != [] {
      var k, rest := ks[|ks| - 1], ks[..|ks| - 1];
      CompareAntisymmetric(k, k);
      forall x | x in rest ensures x in u - {k} {
        assert x in ks;
      }
      AscendingInSet(rest, u - {k});
    }
  }

  lemma {:induction false} EachCallAdds(spots: seq<Spot>, i: nat)
    requires 1 <= i < |spots| && |Received(spots, 1)| >= 2
    requires forall j :: 2 <= j <= i ==> spots[j].sink.entries != []
    ensures |Received(spots, i)| > i
  {
    if i > 1 {
      EachCallAdds(spots, i - 1);
    }
  }

  /** Sessions end however the store changes: if at most n entries of the directory ever exist, one of the calls up to
      the one of number n + 2 delivers nothing. */
  lemma SomeCallIsEmpty(locator: CString, trees: seq<Tree>, spots: seq<Spot>, plans: seq<seq<bool>>, u: set<Key>)
    requires LiveSession(locator, trees, spots, plans) && Bounds(u, locator, trees) && |plans| >= |u| + 2
    ensures exists i :: 2 <= i <= |u| + 2 && spots[i].sink.entries == []
  {
    hide LiveCall, Emitted, Remaining, Resumable;
    var i := |u| + 2;
    if forall j :: 2 <= j <= i ==> spots[j].sink.entries != [] {
      ReadIsReceived(locator, trees, spots, plans, 1);
      EachCallAdds(spots, i);
      ReadIsReceived(locator, trees, spots, plans, i);
      ReadEntriesAre(locator, trees, spots, i);
      ReadsAscend(locator, trees, spots, plans, i);
      forall k | k in ReadKeys(locator, trees, spots, i) ensures k in u {
        ReadKeysAre(locator, trees, spots, i, k);
      }
      AscendingInSet(ReadKeys(locator, trees, spots, i), u);
    }
  }

  lemma NothingAfterA(m: Tree)
    requires forall k :: k in m ==> k in {FsInfo, Dentry(ROOT), Dentry([SLASH, 97])}
    ensures Remaining(m, ROOT, Dentry([SLASH, 97])) == []
    ensures Lt(Dentry(ROOT), Dentry([SLASH, 97])) && Le(Dentry([SLASH, 97]), Dentry([SLASH, 97]))
  {
    hide Remaining;
    var p: CString := [SLASH, 97];
    assert p[1..] == [97] && ROOT[1..] == [];
    assert StrCmp([], [97]) == -97;
    assert StrCmp(ROOT, p) == -97;
    CompareAntisymmetric(Dentry(ROOT), Dentry(p));
    CompareAntisymmetric(Dentry(p), Dentry(p));
    ScanExhausted(m, ROOT, Dentry(p));
  }

  lemma ListsA(m: Tree, attr: Attr)
    requires Dentry([SLASH, 97]) in m && m[Dentry([SLASH, 97])] == DentryRec(attr)
    requires forall k :: k in m ==> k in {FsInfo, Dentry(ROOT), Dentry([SLASH, 97])}
    ensures Remaining(m, ROOT, Dentry(ROOT)) == [Entry([97], attr.kind)]
  {
    hide Remaining;
    var p: CString := [SLASH, 97];
    NothingAfterA(m);
    CompareAntisymmetric(Dentry(ROOT), Dentry(ROOT));
    assert p[|ROOT|..] == [97];
    assert IsSuccessor(m, Dentry(ROOT), Dentry(p));
    ScanEmits(m, ROOT, Dentry(ROOT), Dentry(p));
  }

  /** Such sessions exist: the entry "/a" is refused and stashed, deleted, and delivered all the same. */
  lemma DeletedStashIsDelivered(m: Tree, attr: Attr) returns (trees: seq<Tree>, spots: seq<Spot>, plans: seq<seq<bool>>)
    requires forall k :: k in m ==> k == FsInfo || k == Dentry(ROOT)
    ensures LiveSession(ROOT, trees, spots, plans) && |plans| == 2
    ensures trees == [m[Dentry([SLASH, 97]) := DentryRec(attr)], m]
    ensures Received(spots, 2) == [DOT, DOTDOT, Entry([97], attr.kind)]
  {
    hide Remaining, Call, Emitted;
    var k := Dentry([SLASH, 97]);
    var m1 := m[k := DentryRec(attr)];
    var e := Entry([97], attr.kind);
    ListsA(m1, attr);
    var s0, s1, s2 := StashedThenDelivered(e);
    trees, plans := [m1, m], [[true, true], [true]];
    spots := [Spot(Dentry(ROOT), s0), Spot(k, s1), Spot(k, s2)];
    NothingAfterA(m);
    NothingAfterA(m1);
    assert Received(spots, 1) == [] + [DOT, DOTDOT];
    assert LiveCall(ROOT, trees, spots, plans, 0) && LiveCall(ROOT, trees, spots, plans, 1);
  }
}
