/** Handles and attribute records: dbfs_createhandle, dbfs_create_attr, dbfs_read_attr, dbfs_write_attr, dbfs_dela. */
module Attributes {
  import opened CStrings
  import opened Keys
  import opened Store

  type SizeT = x: int | 0 <= x < TWO64
  type OffT = x: int | 0 - TWO63 <= x < TWO63

  /** struct dbfs_handle: key is the key in the buffer attr_ddk, and pos is where the handle's cursor is. */
  class DbfsHandle {
    const dbp: Db
    const locator: CString
    var key: Key
    var attr: Attr
    var pos: Key

    /** dbfs_createhandle: the buffer holds the key of the handle's own entry, the attributes are zeroed and no cursor
        is open yet. */
    constructor (locator: CString, dbp: Db)
      ensures this.locator == locator && this.dbp == dbp && key == Dentry(locator)
      ensures attr == Attr(Container, 0, 0, 0)
    {
      this.locator, this.dbp := locator, dbp;
      key := Dentry(locator);
      attr := Attr(Container, 0, 0, 0);
      pos := FsInfo;
    }
  }

  method CreateAttr(dbp: Db, path: CString, kind: Kind, mode: nat, ino: nat) returns (error: Err)
    modifies dbp
    ensures error == Success || error == EINVAL
    ensures error == Success ==> Dentry(path) !in old(dbp.recs)
    ensures dbp.reliable ==> (error == Success <==> Dentry(path) !in old(dbp.recs))
    ensures dbp.recs == if error == Success then old(dbp.recs)[Dentry(path) := DentryRec(Attr(kind, mode, ino, 0))]
                        else old(dbp.recs)
  {
    error := dbp.PutNew(Dentry(path), DentryRec(Attr(kind, mode, ino, 0)));
    if error != Success {
      error := EINVAL;
    }
  }

  method WriteAttr(dbp: Db, path: CString, attr: Attr) returns (error: Err)
    modifies dbp
    ensures error == Success || error == EINVAL
    ensures dbp.reliable ==> error == Success
    ensures dbp.recs == if error == Success then old(dbp.recs)[Dentry(path) := DentryRec(attr)] else old(dbp.recs)
  {
    error := dbp.Put(Dentry(path), DentryRec(attr));
    if error != Success {
      error := EINVAL;
    }
  }

  method ReadAttr(dbp: Db, path: CString, attr0: Attr) returns (error: Err, attr: Attr)
    ensures error == Success || error == ENOENT || error == EIO
    ensures dbp.reliable ==> error != EIO
    ensures error == Success ==> Dentry(path) in dbp.recs && attr == dbp.recs[Dentry(path)].attr
    ensures error == ENOENT ==> Dentry(path) !in dbp.recs
    ensures error != Success ==> attr == attr0
  {
    var rc, rec := dbp.Get(Dentry(path));
    if rc == Success {
      return Success, rec.attr;
    }
    return if rc == DbNotFound then ENOENT else EIO, attr0;
  }

  /** dbfs_dela: the record that goes is the one whose key the handle's buffer holds at that time. */
  method DelA(dh: DbfsHandle) returns (error: Err)
    modifies dh.dbp
    ensures error == Success || error == ENOENT || error == EIO
    ensures dh.dbp.reliable ==> error != EIO
    ensures error == Success ==> dh.key in old(dh.dbp.recs)
    ensures error == ENOENT ==> dh.key !in old(dh.dbp.recs)
    ensures dh.dbp.recs == if error == Success then old(dh.dbp.recs) - {dh.key} else old(dh.dbp.recs)
  {
    var rc := dh.dbp.Del(dh.key);
    error := if rc == Success then Success else if rc == DbNotFound then ENOENT else EIO;
  }
}
