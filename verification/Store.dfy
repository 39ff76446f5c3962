/** The ordered key/value map under dbfs: the contract of the Berkeley DB B-tree, its records and error codes.

    Any single operation may fail and then has no effect, unless the map is reliable: then none ever fails. What a call
    promises when no operation fails is what it promises on a reliable map. */
module Store {
  import opened CStrings
  import opened Keys

  type Byte = x: int | 0 <= x < 256

  const BLKSIZE: nat := 4096
  const ROOT_INO: nat := 1
  /** S_IRUSR | S_IWUSR | S_IRGRP | S_IROTH */
  const ROOT_MODE: nat := 0x100 + 0x80 + 0x20 + 0x4
  const TWO63: nat := 0x8000_0000_0000_0000
  const TWO64: nat := 0x1_0000_0000_0000_0000

  /** Conversion to size_t or uint64_t. */
  function U64(x: int): (r: nat)
    ensures r < 0x1_0000_0000_0000_0000
    ensures 0 <= x < 0x1_0000_0000_0000_0000 ==> r == x
  {
    x % TWO64
  }

  /** The contents of a DBFS_BLKSIZE buffer. */
  type Buffer = b: seq<Byte> | |b| == BLKSIZE witness seq(BLKSIZE, _ => 0)

  /** enum mangoo_types; the field is a plain integer, so other values can be stored. */
  datatype Kind = Container | Data | Other

  /** struct dbfs_dentry_data, without times and owners. */
  datatype Attr = Attr(kind: Kind, mode: nat, ino: nat, size: nat)

  datatype Record =
    | FsInfoRec(lastIno: nat)
    | DentryRec(attr: Attr)
    | BlockRec(bytes: Buffer)

  predicate Fits(k: Key, r: Record) {
    match k
    case FsInfo => r.FsInfoRec?
    case Dentry(_) => r.DentryRec?
    case Block(_, _) => r.BlockRec?
  }

  type Tree = m: map<Key, Record> | forall k :: k in m ==> Fits(k, m[k]) witness map[]

  datatype Err =
    | Success
    | DbNotFound | DbKeyExist | DbFault
    | EIO | ENOENT | EINVAL | ENOTEMPTY | ENOBUFS

  /** k is the first key of m after pos. */
  predicate IsSuccessor(m: Tree, pos: Key, k: Key) {
    k in m && Lt(pos, k) && forall j | j in m :: Lt(pos, j) ==> Le(k, j)
  }

  ghost predicate HasSuccessor(m: Tree, pos: Key) {
    exists k :: k in m && Lt(pos, k)
  }

  lemma SuccessorExists(m: Tree, pos: Key)
    requires HasSuccessor(m, pos)
    ensures exists k :: IsSuccessor(m, pos, k)
  {
    var above := set k | k in m && Lt(pos, k);
    var k :| k in m && Lt(pos, k);
    assert k in above;
    assert IsSuccessor(m, pos, Least(above));
  }

  class Db {
    const reliable: bool
    var recs: Tree

    constructor (reliable: bool)
      ensures recs == map[] && this.reliable == reliable
    {
      this.reliable, recs := reliable, map[];
    }

    method Get(k: Key) returns (rc: Err, r: Record)
      ensures rc == Success || rc == DbNotFound || rc == DbFault
      ensures reliable ==> rc != DbFault
      ensures rc == Success ==> k in recs && r == recs[k]
      ensures rc == DbNotFound ==> k !in recs
    {
      rc, r := DbFault, FsInfoRec(0);
      var works: bool := *;
      if reliable || works {
        if k in recs {
          rc, r := Success, recs[k];
        } else {
          rc := DbNotFound;
        }
      }
    }

    method Put(k: Key, r: Record) returns (rc: Err)
      requires Fits(k, r)
      modifies this
      ensures rc == Success || rc == DbFault
      ensures reliable ==> rc != DbFault
      ensures recs == if rc == Success then old(recs)[k := r] else old(recs)
    {
      rc := DbFault;
      var works: bool := *;
      if reliable || works {
        recs, rc := recs[k := r], Success;
      }
    }

    /** put with DB_NOOVERWRITE */
    method PutNew(k: Key, r: Record) returns (rc: Err)
      requires Fits(k, r)
      modifies this
      ensures rc == Success || rc == DbKeyExist || rc == DbFault
      ensures reliable ==> rc != DbFault
      ensures rc == Success ==> k !in old(recs)
      ensures rc == DbKeyExist ==> k in old(recs)
      ensures recs == if rc == Success then old(recs)[k := r] else old(recs)
    {
      rc := DbFault;
      var works: bool := *;
      if reliable || works {
        if k in recs {
          rc := DbKeyExist;
        } else {
          recs, rc := recs[k := r], Success;
        }
      }
    }

    method Del(k: Key) returns (rc: Err)
      modifies this
      ensures rc == Success || rc == DbNotFound || rc == DbFault
      ensures reliable ==> rc != DbFault
      ensures rc == Success ==> k in old(recs)
      ensures rc == DbNotFound ==> k !in old(recs)
      ensures recs == if rc == Success then old(recs) - {k} else old(recs)
    {
      rc := DbFault;
      var works: bool := *;
      if reliable || works {
        if k in recs {
          recs, rc := recs - {k}, Success;
        } else {
          rc := DbNotFound;
        }
      }
    }

    /** DB->cursor */
    method OpenCursor() returns (rc: Err)
      ensures rc == Success || rc == DbFault
      ensures reliable ==> rc != DbFault
    {
      rc := DbFault;
      var works: bool := *;
      if reliable || works {
        rc := Success;
      }
    }

    /** A cursor at pos moves with DB_NEXT; it stays where it is when the move fails. */
    method Next(pos: Key) returns (rc: Err, k: Key, r: Record)
      ensures rc == Success || rc == DbNotFound || rc == DbFault
      ensures reliable ==> rc != DbFault
      ensures rc == Success ==> IsSuccessor(recs, pos, k) && r == recs[k]
      ensures rc == DbNotFound ==> !HasSuccessor(recs, pos)
      ensures rc != Success ==> k == pos
    {
      rc, k, r := DbFault, pos, FsInfoRec(0);
      var works: bool := *;
      if reliable || works {
        if exists j | j in recs :: Lt(pos, j) {
          SuccessorExists(recs, pos);
          k :| k in recs && IsSuccessor(recs, pos, k);
          rc, r := Success, recs[k];
        } else {
          rc := DbNotFound;
        }
      }
    }
  }
}
