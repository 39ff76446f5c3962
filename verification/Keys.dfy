/** Keys of the store and the order its B-tree keeps them in (dbfs_bt_compare). */
module Keys {
  import opened CStrings

  /** struct dbfs_fsinfo_key, struct dbfs_dentry_key and struct dbfs_block_key. */
  datatype Key =
    | FsInfo
    | Dentry(path: CString)
    | Block(ino: nat, off: nat)
  {
    /** enum dbfs_key_types */
    function Type(): int {
      match this
      case FsInfo => 0
      case Dentry(_) => 1
      case Block(_, _) => 2
    }
  }

  function DentryCompare(p1: CString, p2: CString): int {
    StrCmp(p1, p2)
  }

  function BlockCompare(ino1: nat, off1: nat, ino2: nat, off2: nat): int {
    if ino1 > ino2 then 1
    else if ino1 < ino2 then -1
    else if off1 > off2 then 1
    else if off1 < off2 then -1
    else 0
  }

  function BtCompare(k1: Key, k2: Key): int {
    if k1.Type() != k2.Type() then k1.Type() - k2.Type()
    else match k1
      case FsInfo => 0
      case Dentry(p1) => DentryCompare(p1, k2.path)
      case Block(i1, o1) => BlockCompare(i1, o1, k2.ino, k2.off)
  }

  predicate Lt(a: Key, b: Key) {
    BtCompare(a, b) < 0
  }

  predicate Le(a: Key, b: Key) {
    BtCompare(a, b) <= 0
  }

  /** The comparison is a total order on logical keys: antisymmetric in sign, zero exactly on equal keys,
      and transitive. */
  lemma CompareAntisymmetric(a: Key, b: Key)
    ensures BtCompare(a, b) == -BtCompare(b, a)
    ensures BtCompare(a, b) == 0 <==> a == b
  {
    if a.Dentry? && b.Dentry? {
      StrCmpOpposite(a.path, b.path);
    }
  }

  lemma CompareTransitive(a: Key, b: Key, c: Key)
    requires Le(a, b) && Le(b, c)
    ensures Le(a, c)
    ensures Lt(a, b) || Lt(b, c) ==> Lt(a, c)
  {
    if a.Dentry? && b.Dentry? && c.Dentry? {
      StrCmpTransitive(a.path, b.path, c.path);
    }
  }

  /** Entries are in dictionary order of their paths, blocks ascend by inode and then by offset. */
  lemma OrderIs(p: CString, q: CString, i: nat, o: nat, j: nat, u: nat)
    ensures Lt(Dentry(p), Dentry(q)) <==> LexLess(p, q)
    ensures Lt(Block(i, o), Block(j, u)) <==> i < j || (i == j && o < u)
  {
    hide LexLess;
    StrCmpIsLex(p, q);
  }

  /** Entries lie between fsinfo and the blocks; the blocks of an inode are contiguous and ascend by offset. */
  lemma OrderLayout(p: CString, i: nat, o1: nat, o2: nat, k: Key)
    ensures Lt(FsInfo, Dentry(p)) && Lt(Dentry(p), Block(i, o1)) && Lt(FsInfo, Block(i, o1))
    ensures Lt(Block(i, o1), Block(i, o2)) <==> o1 < o2
    ensures Le(Block(i, o1), k) && Le(k, Block(i, o2)) <==> k.Block? && k.ino == i && o1 <= k.off <= o2
    ensures Le(Dentry(p), k) && !k.Block? ==> k.Dentry?
  {
  }

  /** The entries whose path starts with p form one interval of the order, with Dentry(p) as its least key. */
  lemma PrefixInterval(p: CString, lo: Key, k: Key, hi: Key)
    requires lo.Dentry? && hi.Dentry? && p <= lo.path && p <= hi.path
    ensures Le(Dentry(p), lo)
    ensures Le(lo, k) && Le(k, hi) ==> k.Dentry? && p <= k.path
  {
    PrefixIsLeast(p, lo.path);
    if Le(lo, k) && Le(k, hi) {
      PrefixIsConvex(p, lo.path, k.path, hi.path);
    }
  }

  lemma LeastOfTwo(s: set<Key>, x: Key, y: Key)
    requires forall j :: j in s - {x} ==> Le(y, j)
    ensures forall j :: j in s ==> Le(if Lt(x, y) then x else y, j)
  {
    forall j | j in s ensures Le(if Lt(x, y) then x else y, j) {
      CompareAntisymmetric(x, y);
      CompareAntisymmetric(x, x);
      if j != x && Lt(x, y) {
        assert j in s - {x};
        CompareTransitive(x, y, j);
      } else if j != x {
        assert j in s - {x};
      }
    }
  }

  /** The least key of a non-empty set. */
  ghost function Least(s: set<Key>): (k: Key)
    requires s != {}
    ensures k in s
    ensures forall j :: j in s ==> Le(k, j)
  {
    var x :| x in s;
    if s == {x} then
      CompareAntisymmetric(x, x);
      x
    else
      var y := Least(s - {x});
      LeastOfTwo(s, x, y);
      if Lt(x, y) then x else y
  }

  /** The members of a set in key order. */
  ghost function Sort(s: set<Key>): seq<Key> {
    if s == {} then [] else [Least(s)] + Sort(s - {Least(s)})
  }

  ghost predicate Ascending(ks: seq<Key>) {
    forall i, j :: 0 <= i < j < |ks| ==> Lt(ks[i], ks[j])
  }

  lemma {:induction false} SortIsAscendingListing(s: set<Key>)
    ensures Ascending(Sort(s))
    ensures forall k :: k in Sort(s) <==> k in s
  {
    if s != {} {
      var k := Least(s);
      SortIsAscendingListing(s - {k});
      forall j | j in s - {k} ensures Lt(k, j) {
        CompareAntisymmetric(k, j);
      }
      var tail := Sort(s - {k});
      forall i, j | 0 <= i < j < |Sort(s)| ensures Lt(Sort(s)[i], Sort(s)[j]) {
        assert Sort(s)[j] == tail[j - 1];
        assert tail[j - 1] in s - {k};
      }
    }
  }

  /** Taking the least member out of a set takes the head off its listing. */
  lemma SortHead(s: set<Key>, k: Key)
    requires k in s && forall j :: j in s ==> Le(k, j)
    ensures Sort(s) == [k] + Sort(s - {k})
  {
    CompareAntisymmetric(k, Least(s));
  }
}
