/** Directory reading through FUSE: mf_opendir and mf_readdir, and the protocol they follow over several calls. */
module MangooFuse {
  import opened CStrings
  import opened Keys
  import opened Store
  import opened Paths
  import opened Blocks
  import opened Attributes
  import opened Filler
  import opened Directory

  const DOT := Entry([46], Container)
  const DOTDOT := Entry([46, 46], Container)

  /** struct mf_dir */
  class MfDir {
    const handle: DbfsHandle
    const sink: DirSink

    constructor (handle: DbfsHandle, sink: DirSink)
      ensures this.handle == handle && this.sink == sink
    {
      this.handle, this.sink := handle, sink;
    }
  }

  /** What remains before and after a call, and the sink with the call's own buffer: dots or stash first, then the
      store's scan from where the cursor stands. */
  ghost predicate Call(remaining: seq<Entry>, s: Sink, offset: nat, plan: seq<bool>,
                       remaining': seq<Entry>, s': Sink, error: Err)
  {
    exists n, scan :: && Scanned(remaining, Prepared(s, offset, plan), n, remaining', s', scan)
                      && error == if scan == ENOBUFS then Success else scan
  }

  function Prepared(s: Sink, offset: nat, plan: seq<bool>): Sink {
    var s0 := s.(plan := plan, asked := 0, entries := []);
    if offset == 0 then
      Pushed(Pushed(s0.(startingOff := 0), DOT).0, DOTDOT).0.(startingOff := 2)
    else match s.saved
      case None => s0.(startingOff := offset)
      case Some(e) =>
        if s.savedOff == offset then Pushed(s0, e).0.(saved := None, startingOff := offset + 1)
        else s0.(saved := None, startingOff := offset)
  }

  method OpenDir(dbp: Db, path: CString) returns (error: Err, dir: MfDir)
    ensures fresh(dir.handle) && fresh(dir.sink)
    ensures dir.handle.dbp == dbp && dir.handle.locator == path
    ensures dir.sink.curOff == 0 && dir.sink.saved == None
    ensures error == Success ==> Dentry(path) in dbp.recs && dir.handle.pos == Dentry(path)
    ensures dbp.reliable ==> error == if Dentry(path) in dbp.recs then Success else ENOENT
  {
    var handle;
    error, handle := DOpen(dbp, path);
    var sink := new DirSink();
    dir := new MfDir(handle, sink);
  }

  method Readdir(dir: MfDir, plan: seq<bool>, offset: nat, keyIsRoot: bool) returns (error: Err)
    requires CanonicalTree(dir.handle.dbp.recs) && Canonical(dir.handle.locator)
    requires keyIsRoot ==> dir.handle.locator == ROOT
    requires Le(Dentry(dir.handle.locator), dir.handle.pos)
    modifies dir.handle, dir.sink
    ensures Le(Dentry(dir.handle.locator), dir.handle.pos) && Le(old(dir.handle.pos), dir.handle.pos)
    ensures Call(Remaining(dir.handle.dbp.recs, dir.handle.locator, old(dir.handle.pos)), old(dir.sink.State()),
                 offset, plan,
                 Remaining(dir.handle.dbp.recs, dir.handle.locator, dir.handle.pos), dir.sink.State(), error)
    ensures dir.handle.dbp.reliable ==> error == Success
  {
    hide Remaining;
    var sink := dir.sink;
    var off := offset;
    sink.plan, sink.asked, sink.entries := plan, 0, [];
    if off == 0 {
      sink.startingOff := 0;
      var dot := sink.MfFiller(DOT);
      var dotdot := sink.MfFiller(DOTDOT);
      off := off + 2;
    } else {
      if sink.saved.Some? {
        if sink.savedOff == off {
          var again := sink.MfFiller(sink.saved.value);
          off := off + 1;
        }
        sink.saved := None;
      }
    }
    sink.startingOff := off;
    assert sink.State() == Prepared(old(sink.State()), offset, plan);
    ghost var n;
    error, n := ReadDir(dir.handle, sink, keyIsRoot);
    ghost var scan := error;
    assert Scanned(Remaining(dir.handle.dbp.recs, dir.handle.locator, old(dir.handle.pos)),
                   Prepared(old(sink.State()), offset, plan), n,
                   Remaining(dir.handle.dbp.recs, dir.handle.locator, dir.handle.pos), sink.State(), scan);
    if error == ENOBUFS {
      error := Success;
    }
  }

  // The protocol

  /** Entries that were read from the store or are still to be read, and not yet delivered. */
  function Pending(s: Sink, remaining: seq<Entry>): seq<Entry> {
    match s.saved
    case None => remaining
    case Some(e) => [e] + remaining
  }

  ghost predicate Resumable(s: Sink) {
    s.saved.Some? ==> s.savedOff == s.curOff && s.startingOff <= s.curOff
  }

  /** A first call on a fresh directory delivers a prefix of the whole listing and can be resumed exactly when the
      buffer takes both dot entries. */
  lemma FirstCall(remaining: seq<Entry>, s: Sink, plan: seq<bool>, remaining': seq<Entry>, s': Sink, error: Err)
    requires s.curOff == 0 && s.saved == None
    requires Call(remaining, s, 0, plan, remaining', s', error)
    ensures (s'.entries + Pending(s', remaining') == [DOT, DOTDOT] + remaining && Resumable(s'))
       <==> Accepts(plan, 0) && Accepts(plan, 1)
    ensures Accepts(plan, 0) && Accepts(plan, 1) ==>
              && s'.curOff == |s'.entries| >= 2 && s'.reported == s'.curOff - 1
              && s'.entries[..2] == [Entry([46], Container), Entry([46, 46], Container)]
  {
    hide Scanned, Fed;
    var s2 := Prepared(s, 0, plan);
    var n, scan :| Scanned(remaining, s2, n, remaining', s', scan);
    if Accepts(plan, 0) && Accepts(plan, 1) {
      assert s2.entries == [DOT, DOTDOT];
      ScanConserves(remaining, s2, n, remaining', s', scan);
      ScanLoses(remaining, s2, n, remaining', s', scan);
    } else if Accepts(plan, 0) {
      assert s2.entries == [DOT] && s2.saved == Some(DOTDOT);
      ScanLoses(remaining, s2, n, remaining', s', scan);
    } else if Accepts(plan, 1) {
      assert s2.entries == [DOTDOT];
      ScanLoses(remaining, s2, n, remaining', s', scan);
      assert (s'.entries + Pending(s', remaining'))[0] == DOTDOT;
    } else {
      assert s2.entries == [];
      ScanLoses(remaining, s2, n, remaining', s', scan);
    }
  }

  /** A scan that skips nothing and starts without a stash neither loses nor repeats an entry. */
  lemma ScanConserves(remaining: seq<Entry>, s: Sink, n: nat, remaining': seq<Entry>, s': Sink, scan: Err)
    requires s.saved == None && s.startingOff <= s.curOff
    requires Scanned(remaining, s, n, remaining', s', scan)
    ensures s'.entries + Pending(s', remaining') == s.entries + remaining
    ensures Resumable(s')
    ensures s'.curOff - s.curOff == |s'.entries| - |s.entries| >= 0
    ensures s.reported == s.curOff - 1 ==> s'.reported == s'.curOff - 1
    ensures scan != EIO && remaining != [] && Accepts(s.plan, s.asked) ==> |s'.entries| > |s.entries|
  {
    assert remaining == remaining[..n] + remaining[n..];
    if scan == ENOBUFS {
      assert remaining[n..] == [remaining[n]] + remaining[n + 1..];
    }
  }

  /** A scan that has to skip drops what it skips, and a stash that is still there is overwritten or kept. */
  lemma ScanLoses(remaining: seq<Entry>, s: Sink, n: nat, remaining': seq<Entry>, s': Sink, scan: Err)
    requires Scanned(remaining, s, n, remaining', s', scan)
    ensures |s'.entries + Pending(s', remaining')| <= |s.entries + Pending(s, remaining)| - Min(n, Skipped(s))
    ensures n < Skipped(s) ==> s'.saved == s.saved
    ensures scan == Success ==> n == |remaining|
    ensures scan == ENOBUFS ==> n >= Skipped(s)
    ensures s.saved == None ==> Resumable(s')
    ensures s.entries <= s'.entries && s'.curOff == s.curOff + n && s'.startingOff == s.startingOff
  {
  }

  /** A resumed call that returns 0 continues the listing without loss or repetition exactly when it resumes at the
      number of the stashed entry and the buffer takes that entry; with no stash, when it does not resume beyond
      what was counted, or nothing remains. */
  lemma ResumedCall(remaining: seq<Entry>, s: Sink, offset: nat, plan: seq<bool>, remaining': seq<Entry>, s': Sink)
    requires Resumable(s) && offset > 0
    requires Call(remaining, s, offset, plan, remaining', s', Success)
    ensures s'.entries + Pending(s', remaining') == Pending(s, remaining)
       <==> if s.saved.Some? then offset == s.savedOff && Accepts(plan, 0) else offset <= s.curOff || remaining == []
    ensures Resumable(s')
    ensures offset == s.curOff && Accepts(plan, 0) ==>
              s'.curOff == s.curOff + |s'.entries| && (s.reported == s.curOff - 1 ==> s'.reported == s'.curOff - 1)
    ensures offset == s.curOff && Accepts(plan, 0) && Pending(s, remaining) != [] ==> s'.entries != []
  {
    hide Scanned, Fed;
    var s2 := Prepared(s, offset, plan);
    var n, scan :| Scanned(remaining, s2, n, remaining', s', scan)
                   && Success == if scan == ENOBUFS then Success else scan;
    if s2.startingOff <= s2.curOff {
      ScanConserves(remaining, s2, n, remaining', s', scan);
      assert s2.entries == (if s.saved.Some? && offset == s.savedOff then [s.saved.value] else []);
      assert s2.entries + remaining == (if s2.entries == [] then remaining else [s.saved.value] + remaining);
    }
    ScanLoses(remaining, s2, n, remaining', s', scan);
  }

  /** A call that fails with EIO at the number counted so far: what it accepted and what is left to read still make up
      the listing exactly unless it was to deliver a stash that its buffer refused. */
  lemma FailedCall(remaining: seq<Entry>, s: Sink, plan: seq<bool>, remaining': seq<Entry>, s': Sink)
    requires Resumable(s) && s.curOff > 0
    requires Call(remaining, s, s.curOff, plan, remaining', s', EIO)
    ensures s'.entries + Pending(s', remaining') == Pending(s, remaining) <==> s.saved == None || Accepts(plan, 0)
    ensures Resumable(s') && s'.saved == None && s'.curOff >= s.curOff
    ensures |s'.entries| + |remaining'| <= |Pending(s, remaining)|
    ensures s.saved.Some? && s'.entries == [] ==> |remaining'| < |Pending(s, remaining)|
  {
    hide Scanned, Fed;
    var s2 := Prepared(s, s.curOff, plan);
    var n :| Scanned(remaining, s2, n, remaining', s', EIO);
    assert s2.saved == None && s'.saved == None by {
      FaultKeepsStash(remaining, s2, n, remaining', s');
    }
    ScanLoses(remaining, s2, n, remaining', s', EIO);
    if s2.startingOff <= s2.curOff {
      ScanConserves(remaining, s2, n, remaining', s', EIO);
      assert s2.entries + remaining == Pending(s, remaining);
      assert |s'.entries + Pending(s', remaining')| == |Pending(s, remaining)|;
    }
  }

  lemma FaultKeepsStash(remaining: seq<Entry>, s: Sink, n: nat, remaining': seq<Entry>, s': Sink)
    requires Scanned(remaining, s, n, remaining', s', EIO)
    ensures s'.saved == s.saved
  {
  }

  /** When the buffer of such a call is thrown away, a call that returns 0 and resumes at the same number goes on with
      the listing exactly if there was no stash and the failed call had accepted nothing. */
  lemma RetriedCall(remaining: seq<Entry>, s: Sink, plan1: seq<bool>, remaining1: seq<Entry>, s1: Sink,
                    plan2: seq<bool>, remaining2: seq<Entry>, s2: Sink)
    requires Resumable(s) && s.curOff > 0
    requires Call(remaining, s, s.curOff, plan1, remaining1, s1, EIO)
    requires Call(remaining1, s1, s.curOff, plan2, remaining2, s2, Success)
    ensures s2.entries + Pending(s2, remaining2) == Pending(s, remaining) <==> s.saved == None && s1.entries == []
  {
    hide Call, Resumable;
    FailedCall(remaining, s, plan1, remaining1, s1);
    ResumedCall(remaining1, s1, s.curOff, plan2, remaining2, s2);
    assert s2.entries + Pending(s2, remaining2) == remaining1;
    assert [] + remaining1 == remaining1;
  }

  // Whole sessions

  datatype Point = Point(remaining: seq<Entry>, sink: Sink)

  /** All entries accepted by the first i calls. */
  function Delivered(points: seq<Point>, i: nat): seq<Entry>
    requires i < |points|
  {
    if i == 0 then [] else Delivered(points, i - 1) + points[i].sink.entries
  }

  /** Calls that all return 0, each resuming at the number of entries delivered so far, with buffers that take the two
      dot entries in the first call and at least one entry in each later call. */
  ghost predicate Session(listing: seq<Entry>, points: seq<Point>, plans: seq<seq<bool>>) {
    && |points| == |plans| + 1
    && points[0].remaining == listing && points[0].sink.curOff == 0 && points[0].sink.saved == None
    && (forall i :: 0 <= i < |plans| ==> Accepts(plans[i], 0) && (i == 0 ==> Accepts(plans[i], 1)))
    && forall i :: 0 <= i < |plans| ==>
         Call(points[i].remaining, points[i].sink, |Delivered(points, i)|, plans[i],
              points[i + 1].remaining, points[i + 1].sink, Success)
  }

  lemma Regroup<T>(a: seq<T>, b: seq<T>, c: seq<T>)
    ensures (a + b) + c == a + (b + c)
  {
  }

  /** Over any session every entry is delivered exactly once and in order: what was delivered, then the stash, then
      what the store still holds, is always the whole listing; and each call makes progress until nothing is left. */
  lemma {:induction false} ExactlyOnce(listing: seq<Entry>, points: seq<Point>, plans: seq<seq<bool>>, i: nat)
    requires Session(listing, points, plans) && 1 <= i <= |plans|
    ensures Delivered(points, i) + Pending(points[i].sink, points[i].remaining) == [DOT, DOTDOT] + listing
    ensures Resumable(points[i].sink) && points[i].sink.curOff == |Delivered(points, i)| >= 2
    ensures points[i].sink.reported == |Delivered(points, i)| - 1
    ensures |Delivered(points, i)| > i || Pending(points[i].sink, points[i].remaining) == []
  {
    var p, q := points[i - 1], points[i];
    if i == 1 {
      FirstCall(p.remaining, p.sink, plans[0], q.remaining, q.sink, Success);
      assert Delivered(points, 1) == q.sink.entries;
    } else {
      ExactlyOnce(listing, points, plans, i - 1);
      ResumedCall(p.remaining, p.sink, |Delivered(points, i - 1)|, plans[i - 1], q.remaining, q.sink);
      Regroup(Delivered(points, i - 1), q.sink.entries, Pending(q.sink, q.remaining));
      if Pending(p.sink, p.remaining) == [] {
        assert q.sink.entries + Pending(q.sink, q.remaining) == [];
      }
    }
  }

  /** The offset that went to FUSE with the last entry is one below the number delivered. At any point of a session, a
      call that returns 0 and resumes there, instead of at that number, keeps the listing whole exactly when no entry
      is stashed: a stashed entry is lost. */
  lemma ReportedOffsetLosesStash(listing: seq<Entry>, points: seq<Point>, plans: seq<seq<bool>>, i: nat,
                                 plan: seq<bool>, remaining': seq<Entry>, s': Sink)
    requires Session(listing, points, plans) && 1 <= i <= |plans|
    requires Call(points[i].remaining, points[i].sink, points[i].sink.reported, plan, remaining', s', Success)
    ensures Delivered(points, i) + s'.entries + Pending(s', remaining') == [DOT, DOTDOT] + listing
       <==> points[i].sink.saved == None
  {
    var p, done := points[i], Delivered(points, i);
    ExactlyOnce(listing, points, plans, i);
    ResumedCall(p.remaining, p.sink, p.sink.reported, plan, remaining', s');
    Regroup(done, s'.entries, Pending(s', remaining'));
    assert (done + Pending(p.sink, p.remaining))[|done|..] == Pending(p.sink, p.remaining);
    assert (done + (s'.entries + Pending(s', remaining')))[|done|..] == s'.entries + Pending(s', remaining');
  }

  /** A call that fails in a session leaves the listing whole, if its entries are kept, exactly unless it was to deliver
      a stash that its buffer refused. If its entries are thrown away, a retry at the number delivered keeps the listing
      whole exactly when there was no stash and the failed call had accepted nothing. */
  lemma FailureInSession(listing: seq<Entry>, points: seq<Point>, plans: seq<seq<bool>>, i: nat,
                         plan1: seq<bool>, remaining1: seq<Entry>, s1: Sink,
                         plan2: seq<bool>, remaining2: seq<Entry>, s2: Sink)
    requires Session(listing, points, plans) && 1 <= i <= |plans|
    requires Call(points[i].remaining, points[i].sink, |Delivered(points, i)|, plan1, remaining1, s1, EIO)
    requires Call(remaining1, s1, |Delivered(points, i)|, plan2, remaining2, s2, Success)
    ensures Delivered(points, i) + s1.entries + Pending(s1, remaining1) == [DOT, DOTDOT] + listing
       <==> points[i].sink.saved == None || Accepts(plan1, 0)
    ensures Delivered(points, i) + s2.entries + Pending(s2, remaining2) == [DOT, DOTDOT] + listing
       <==> points[i].sink.saved == None && s1.entries == []
  {
    hide Call, Resumable, Pending;
    var p, done := points[i], Delivered(points, i);
    ExactlyOnce(listing, points, plans, i);
    FailedCall(p.remaining, p.sink, plan1, remaining1, s1);
    RetriedCall(p.remaining, p.sink, plan1, remaining1, s1, plan2, remaining2, s2);
    SameRest(done, s1.entries, Pending(s1, remaining1), Pending(p.sink, p.remaining));
    SameRest(done, s2.entries, Pending(s2, remaining2), Pending(p.sink, p.remaining));
  }

  lemma SameRest<T>(a: seq<T>, b: seq<T>, c: seq<T>, d: seq<T>)
    ensures a + b + c == a + d <==> b + c == d
  {
    assert a + b + c == a + (b + c);
    assert (a + (b + c))[|a|..] == b + c;
    assert (a + d)[|a|..] == d;
  }

  /** After as many calls as there are entries in the store, plus one, everything has been delivered, and any further
      call delivers nothing. */
  lemma SessionCompletes(listing: seq<Entry>, points: seq<Point>, plans: seq<seq<bool>>, i: nat)
    requires Session(listing, points, plans) && |listing| + 2 <= i <= |plans|
    ensures Delivered(points, i) == [DOT, DOTDOT] + listing
    ensures points[i].sink.entries == []
  {
    hide Call, Pending, Resumable;
    ExactlyOnce(listing, points, plans, i);
    ExactlyOnce(listing, points, plans, i - 1);
    AllDelivered(Delivered(points, i), Pending(points[i].sink, points[i].remaining), listing);
    AllDelivered(Delivered(points, i - 1), Pending(points[i - 1].sink, points[i - 1].remaining), listing);
    assert |Delivered(points, i)| == |Delivered(points, i - 1)| + |points[i].sink.entries|;
  }

  lemma AllDelivered(done: seq<Entry>, pending: seq<Entry>, listing: seq<Entry>)
    requires done + pending == [DOT, DOTDOT] + listing
    requires |done| >= |listing| + 2 || pending == []
    ensures done == [DOT, DOTDOT] + listing
  {
    assert |done + pending| == |listing| + 2;
    assert done + [] == done;
  }

  /** A completed session over a directory has delivered each of its children. */
  lemma ChildrenDelivered(m: Tree, locator: CString, points: seq<Point>, plans: seq<seq<bool>>, i: nat, k: Key)
    requires CanonicalTree(m) && Canonical(locator) && Session(Listing(m, locator), points, plans)
    requires |Listing(m, locator)| + 2 <= i <= |plans|
    requires k in m && k.Dentry? && k.path != ROOT && Parent(k.path) == locator
    ensures locator <= k.path && EntryOf(m, locator, k) in Delivered(points, i)
  {
    hide Listing, ListedKeys, EntryOf, Session, Delivered, Canonical, Parent;
    SessionCompletes(Listing(m, locator), points, plans, i);
    ListsChildrenExactly(m, locator);
    ListingIsExact(m, locator);
    var ks := ListedKeys(m, locator);
    var j :| 0 <= j < |ks| && ks[j] == k;
    assert ([DOT, DOTDOT] + Listing(m, locator))[j + 2] == EntryOf(m, locator, k);
  }

  /** The only entry of a listing is refused by a buffer with room for two, stashed, and delivered by the next call. */
  lemma StashedThenDelivered(e: Entry) returns (s0: Sink, s1: Sink, s2: Sink)
    ensures s0.curOff == 0 && s0.saved == None && s1.entries == [DOT, DOTDOT] && s1.saved == Some(e)
    ensures Call([e], s0, 0, [true, true], [], s1, Success)
    ensures Call([], s1, 2, [true], [], s2, Success) && s2.entries == [e]
  {
    s0 := Sink([], 0, [], 0, 0, None, 0, 0);
    s1 := Sink([true, true], 3, [DOT, DOTDOT], 2, 2, Some(e), 2, 1);
    s2 := Sink([true], 1, [e], 3, 3, None, 2, 2);
    assert Prepared(s0, 0, [true, true]) == s1.(asked := 2, saved := None, savedOff := 0);
    assert Scanned([e], Prepared(s0, 0, [true, true]), 0, [], s1, ENOBUFS);
    assert Prepared(s1, 2, [true]) == s2;
    assert Scanned([], Prepared(s1, 2, [true]), 0, [], s2, Success);
  }

  /** Sessions that need their stash exist. */
  lemma SessionsExist(e: Entry)
    ensures exists points: seq<Point>, plans ::
              Session([e], points, plans) && |plans| == 2 && points[1].sink.saved == Some(e)
  {
    hide Call;
    var s0, s1, s2 := StashedThenDelivered(e);
    var points := [Point([e], s0), Point([], s1), Point([], s2)];
    assert Delivered(points, 1) == [] + [DOT, DOTDOT];
    assert Session([e], points, [[true, true], [true]]);
  }

  /** A reader that opens a directory and calls mf_readdir until a call delivers nothing, with any buffers that take the
      dots in the first call and an entry in every other: it gets the whole listing, each entry once and in order. */
  method ListDirectory(db: Db, path: CString, buffers: nat -> seq<bool>) returns (error: Err, delivered: seq<Entry>)
    requires CanonicalTree(db.recs) && Canonical(path)
    requires Accepts(buffers(0), 1) && forall i :: Accepts(buffers(i), 0)
    ensures error == Success ==> Dentry(path) in db.recs && delivered == [DOT, DOTDOT] + Listing(db.recs, path)
    ensures db.reliable ==> error == if Dentry(path) in db.recs then Success else ENOENT
  {
    hide Remaining, Call;
    var dir;
    delivered := [];
    error, dir := OpenDir(db, path);
    if error != Success {
      return;
    }
    ghost var m, handle, sink := db.recs, dir.handle, dir.sink;
    ghost var remaining, s := Remaining(m, path, handle.pos), sink.State();
    CompareAntisymmetric(Dentry(path), Dentry(path));
    error := Readdir(dir, buffers(0), 0, path == ROOT);
    if error != Success {
      return;
    }
    FirstCall(remaining, s, buffers(0), Remaining(m, path, handle.pos), sink.State(), Success);
    delivered := dir.sink.entries;
    var calls := 1;
    while dir.sink.entries != []
      invariant error == Success
      invariant Le(Dentry(path), handle.pos) && Resumable(sink.State()) && sink.curOff == |delivered| >= 2
      invariant delivered + Pending(sink.State(), Remaining(m, path, handle.pos)) == [DOT, DOTDOT] + Listing(m, path)
      invariant dir.sink.entries == [] ==> Pending(sink.State(), Remaining(m, path, handle.pos)) == []
      decreases |Pending(sink.State(), Remaining(m, path, handle.pos))| + if dir.sink.entries == [] then 0 else 1
    {
      remaining, s := Remaining(m, path, handle.pos), sink.State();
      var keyIsRoot: bool := *;
      error := Readdir(dir, buffers(calls), |delivered|, keyIsRoot && path == ROOT);
      if error != Success {
        return;
      }
      ResumedCall(remaining, s, |delivered|, buffers(calls), Remaining(m, path, handle.pos), sink.State());
      Regroup(delivered, dir.sink.entries, Pending(sink.State(), Remaining(m, path, handle.pos)));
      delivered := delivered + dir.sink.entries;
      calls := calls + 1;
    }
  }
}
