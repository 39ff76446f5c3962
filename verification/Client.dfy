/** One user of the store: it mounts it, keeps at most one stream handle for a path, and makes the calls. Every method
    is one step of the state machine, so the run theorems are about what these operations do to the heap. */
module Client {
  import opened CStrings
  import opened Keys
  import opened Store
  import opened Paths
  import opened Blocks
  import opened Attributes
  import S = Stream
  import opened Directory
  import opened Dbfs
  import opened System
  import F = FlatFs

  class Caller {
    const db: Db
    var store: DbfsStore?
    var creates: nat
    var handles: map<CString, DbfsHandle>

    ghost predicate Valid()
      reads this, store, handles.Values
    {
      && (store != null ==> store.dbp == db)
      && (store == null ==> creates == 0 && handles == map[])
      && (forall p :: p in handles ==> handles[p].dbp == db && handles[p].locator == p)
    }

    /** The state that the heap stands for. */
    ghost function View(): Sys
      reads this, db, store, handles.Values
    {
      Sys(db.recs, store != null, if store == null then 0 else store.lastInode, creates,
          map p | p in handles :: handles[p].attr)
    }

    /** mkdbfs, and then nothing mounted. */
    constructor (db: Db)
      ensures Valid() && this.db == db && View() == Sys(db.recs, false, 0, 0, map[])
    {
      this.db, store, creates, handles := db, null, 0, map[];
    }

    method Mount() returns (error: Err)
      requires Valid() && store == null
      modifies this, db
      ensures Valid() && Next(old(View()), F.Mount, F.Done(error), View())
      ensures db.reliable ==> NoFault(old(View()), F.Mount, F.Done(error))
    {
      var st;
      error, st := InitStore(db);
      if error == Success {
        store := st;
      }
      assert MountOutcome(old(db.recs), db.recs, st.lastInode, error);
    }

    method Unmount()
      requires Valid() && store != null
      modifies this
      ensures Valid() && Next(old(View()), F.Unmount, F.Done(Success), View())
    {
      store, creates, handles := null, 0, map[];
    }

    method Create(path: CString, kind: Kind, mode: nat) returns (error: Err)
      requires Valid() && store != null
      modifies this, db, store
      ensures Valid() && Next(old(View()), F.Create(path, kind, mode), F.Done(error), View())
      ensures db.reliable ==> NoFault(old(View()), F.Create(path, kind, mode), F.Done(error))
    {
      error := store.Create(path, mode, kind);
      creates := creates + 1;
    }

    method Delete(path: CString, budget: nat, left: Key) returns (outcome: Outcome, ghost gone: F.Gone)
      requires Valid() && store != null
      requires CanonicalTree(db.recs) && SizesFit(db.recs) && Canonical(path)
      modifies db
      ensures Valid()
      ensures Next(old(View()), F.Delete(path, left),
                   F.Deleted(outcome.Returned?, if outcome.Returned? then outcome.error else Success, gone), View())
      ensures db.reliable ==>
                NoFault(old(View()), F.Delete(path, left),
                        F.Deleted(outcome.Returned?, if outcome.Returned? then outcome.error else Success, gone))
    {
      outcome := store.Delete(path, budget, left);
      gone := DeleteLoses(old(db.recs), path, left, db.recs, outcome);
    }

    method Open(path: CString) returns (error: Err)
      requires Valid() && store != null
      modifies this
      ensures Valid() && Next(old(View()), F.Open(path), F.Done(error), View())
      ensures db.reliable ==> NoFault(old(View()), F.Open(path), F.Done(error))
    {
      var dh;
      error, dh := SOpen(db, path);
      assert OpenOutcome(db.recs, path, dh.attr, error);
      if error == Success {
        handles := handles[path := dh];
      }
    }

    method Close(path: CString)
      requires Valid() && store != null
      modifies this
      ensures Valid() && Next(old(View()), F.Close(path), F.Done(Success), View())
    {
      handles := handles - {path};
    }

    method Write(path: CString, off: nat, buf: array<Byte>, garbage: Garbage) returns (count: nat, error: Err)
      requires Valid() && store != null && path in handles && off + buf.Length < TWO63
      modifies db, handles[path], buf
      ensures Valid() && buf[..] == old(buf[..])
      ensures Next(old(View()), F.Write(path, off, old(buf[..])), F.Moved(count, error), View())
      ensures db.reliable ==> NoFault(old(View()), F.Write(path, off, old(buf[..])), F.Moved(count, error))
    {
      count, error := S.Write(handles[path], buf, buf.Length, off, garbage);
      assert buf[..buf.Length] == buf[..];
    }

    method Read(path: CString, off: nat, buf: array<Byte>, n: nat) returns (count: nat, error: Err)
      requires Valid() && store != null && path in handles && off < TWO63 && n < TWO63 && n <= buf.Length
      requires handles[path].attr.size < TWO63
      modifies db, buf
      ensures Valid()
      ensures Next(old(View()), F.Read(path, off, n, old(buf[..])), F.Filled(count, error, buf[..]), View())
      ensures db.reliable ==> NoFault(old(View()), F.Read(path, off, n, old(buf[..])), F.Filled(count, error, buf[..]))
    {
      count, error := S.Read(handles[path], buf, n, off);
    }

    method SetSize(path: CString, size: nat) returns (error: Err)
      requires Valid() && store != null && path in handles && size < TWO63
      requires handles[path].attr.size < TWO63
      modifies db, handles[path]
      ensures Valid() && Next(old(View()), F.SetSize(path, size), F.Done(error), View())
      ensures db.reliable ==> NoFault(old(View()), F.SetSize(path, size), F.Done(error))
    {
      var returned;
      returned, error := S.SetSize(handles[path], size, 0);
    }
  }
}
