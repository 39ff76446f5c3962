/** The file system that users of dbfs are meant to see: a set of paths, and for each file the bytes that were written
    to it, with no key order, no blocks of other files, no inodes and no counter. */
module FlatFs {
  import opened CStrings
  import opened Keys
  import opened Store
  import opened Paths
  import opened Blocks

  /** Odd: neither a container nor a data entry. blocks: which aligned blocks of the file were ever written to. bytes: the
      bytes that were. size: the size on record. */
  datatype Node = Dir(mode: nat) | Odd(mode: nat) | File(mode: nat, size: nat, blocks: set<nat>, bytes: map<nat, Byte>)

  /** sizes: the size that each open handle believes in. */
  datatype Fs = Fs(nodes: map<CString, Node>, sizes: map<CString, nat>)

  /** A delete says which key its cursor leaves in the handle's key buffer. */
  datatype Op =
    | Mount
    | Unmount
    | Create(path: CString, kind: Kind, mode: nat)
    | Delete(path: CString, left: Key)
    | Open(path: CString)
    | Close(path: CString)
    | Write(path: CString, off: nat, data: seq<Byte>)
    | Read(path: CString, off: nat, n: nat, buf: seq<Byte>)
    | SetSize(path: CString, size: nat)

  /** What a delete took away: an entry, one block of a file, or nothing that belongs to any path. */
  datatype Gone = NothingGone | PathGone(path: CString) | BlockGone(path: CString, off: nat)

  /** What a call gives back. */
  datatype Res =
    | Done(error: Err)
    | Deleted(returned: bool, error: Err, gone: Gone)
    | Moved(count: nat, error: Err)
    | Filled(count: nat, error: Err, buf: seq<Byte>)

  const EMPTY := Fs(map[ROOT := Dir(420)], map[])

  predicate IsFile(nodes: map<CString, Node>, p: CString) {
    p in nodes && nodes[p].File?
  }

  predicate InRange(i: nat, off: nat, n: nat) {
    off <= i < off + n
  }

  ghost function Range(off: nat, n: nat): (s: set<nat>)
    ensures forall i :: i in s <==> InRange(i, off, n)
  {
    set i: nat | i < off + n && InRange(i, off, n)
  }

  ghost function MetBlocks(off: nat, n: nat): (s: set<nat>)
    ensures forall o :: o in s <==> Meets(o, off, n)
  {
    set o: nat | o < off + n && Meets(o, off, n)
  }

  ghost function PutBytes(f: Node, off: nat, data: seq<Byte>): Node
    requires f.File?
  {
    f.(blocks := f.blocks + MetBlocks(off, |data|),
       bytes := map i | i in f.bytes.Keys + Range(off, |data|) ::
                  if off <= i < off + |data| then data[i - off] else f.bytes[i])
  }

  ghost function DropBlock(f: Node, off: nat): Node
    requires f.File?
  {
    f.(blocks := f.blocks - {off}, bytes := map i | i in f.bytes && Floor(i) != off :: f.bytes[i])
  }

  ghost function Lose(nodes: map<CString, Node>, gone: Gone): map<CString, Node> {
    match gone
    case NothingGone => nodes
    case PathGone(q) => nodes - {q}
    case BlockGone(q, off) => if IsFile(nodes, q) then nodes[q := DropBlock(nodes[q], off)] else nodes
  }

  function NewNode(kind: Kind, mode: nat): Node {
    match kind
    case Container => Dir(mode)
    case Data => File(mode, 0, {}, map[])
    case Other => Odd(mode)
  }

  /** What a call does, given what it returned. */
  ghost function Apply(a: Fs, op: Op, res: Res): Fs {
    match (op, res)
    case (Unmount, _) => a.(sizes := map[])
    case (Create(p, kind, mode), Done(Success)) =>
      a.(nodes := a.nodes[p := NewNode(kind, mode)])
    case (Delete(_, _), Deleted(_, _, gone)) => a.(nodes := Lose(a.nodes, gone))
    case (Open(p), Done(Success)) => if IsFile(a.nodes, p) then a.(sizes := a.sizes[p := a.nodes[p].size]) else a
    case (Close(p), _) => a.(sizes := a.sizes - {p})
    case (Write(p, off, data), Moved(count, error)) =>
      if IsFile(a.nodes, p) && p in a.sizes && count <= |data| then
        var f := PutBytes(a.nodes[p], off, data[..count]);
        var grown := Max(a.sizes[p], off + |data|);
        if error == EIO then a.(nodes := a.nodes[p := f])
        else if error == EINVAL then a.(nodes := a.nodes[p := f], sizes := a.sizes[p := grown])
        else Fs(a.nodes[p := f.(size := grown)], a.sizes[p := grown])
      else a
    case (SetSize(p, size), Done(error)) =>
      if IsFile(a.nodes, p) && p in a.sizes then
        Fs(if error == Success then a.nodes[p := a.nodes[p].(size := size)] else a.nodes, a.sizes[p := size])
      else a
    case _ => a
  }

  /** A read of a file whose handle believes in size: written bytes come back, blocks never written come back as
      zeros, and the status tells whether the last block was ever written. */
  ghost predicate ReadAllowed(f: Node, size: nat, off: nat, n: nat, buf0: seq<Byte>,
                              count: nat, error: Err, buf: seq<Byte>)
    requires f.File?
  {
    if off > size then error == Success && count == n && buf == buf0
    else
      var len := Min(n, size - off);
      && count <= len && |buf| == |buf0| && count <= |buf|
      && buf[count..] == buf0[count..]
      && (forall i :: 0 <= i < count && off + i in f.bytes ==> buf[i] == f.bytes[off + i])
      && (forall i :: 0 <= i < count && Floor(off + i) !in f.blocks ==> buf[i] == 0)
      && error == (if count < len then EIO
                   else if len > 0 && Floor(off + len - 1) !in f.blocks then DbNotFound
                   else Success)
  }

  /** What a call may return. */
  ghost predicate Allowed(a: Fs, op: Op, res: Res) {
    match (op, res)
    case (Mount, Done(error)) => error == Success || error == EIO
    case (Create(p, _, _), Done(error)) => (error == Success && p !in a.nodes) || error == EINVAL
    case (Delete(p, left), Deleted(returned, error, gone)) =>
      if returned && error == Success then
        && p != ROOT && (IsBareDir(a.nodes, p) || (IsFile(a.nodes, p) && a.nodes[p].size > 0))
        && (IsFile(a.nodes, p) || left == Dentry(p) ==> gone == PathGone(p))
        && match gone
           case PathGone(q) => (q == p || left == Dentry(q)) && q in a.nodes
           case BlockGone(q, off) => IsFile(a.nodes, q) && off in a.nodes[q].blocks
           case NothingGone => true
      else
        && (gone == NothingGone || gone == BlockGone(p, 0))
        && (!returned || gone != NothingGone ==> IsFile(a.nodes, p) && a.nodes[p].size == 0)
        && (returned ==>
          && (error == ENOTEMPTY || error == ENOENT || error == EINVAL || error == EIO)
          && (error == ENOTEMPTY ==> p in a.nodes && a.nodes[p].Dir? && exists q :: q in a.nodes && p < q)
          && (error == ENOENT ==> p !in a.nodes || (left != Dentry(p) && IsBareDir(a.nodes, p)))
          && (error == EINVAL ==> p == ROOT || (p in a.nodes && a.nodes[p].Odd?)))
    case (Open(p), Done(error)) =>
      (error == Success && p in a.nodes) || (error == ENOENT && p !in a.nodes) || error == EIO
    case (Write(p, off, data), Moved(count, error)) =>
      && IsFile(a.nodes, p) && count <= |data|
      && (error == Success || error == EIO || error == EINVAL) && (error == EIO <==> count < |data|)
    case (Read(p, off, n, buf0), Filled(count, error, buf)) =>
      IsFile(a.nodes, p) && p in a.sizes && ReadAllowed(a.nodes[p], a.sizes[p], off, n, buf0, count, error, buf)
    case (SetSize(p, _), Done(error)) => IsFile(a.nodes, p) && (error == Success || error == EINVAL)
    case _ => true
  }

  /** A directory that no path extends. */
  ghost predicate IsBareDir(nodes: map<CString, Node>, p: CString) {
    p in nodes && nodes[p].Dir? && forall q :: q in nodes ==> !(p < q)
  }

  /** What a call returns when no operation of the store below fails: the state decides. Only a delete of a bare
      directory may still find a key in its buffer that is no record's. */
  ghost predicate Faultless(a: Fs, op: Op, res: Res) {
    match (op, res)
    case (Mount, Done(error)) => error == Success
    case (Unmount, Done(error)) => error == Success
    case (Create(p, _, _), Done(error)) => error == if p in a.nodes then EINVAL else Success
    case (Delete(p, left), Deleted(returned, error, gone)) =>
      if IsFile(a.nodes, p) && p != ROOT && a.nodes[p].size == 0 then !returned
      else
        && returned
        && if p == ROOT then error == EINVAL
           else if p !in a.nodes then error == ENOENT
           else if a.nodes[p].Odd? then error == EINVAL
           else if a.nodes[p].Dir? && !IsBareDir(a.nodes, p) then error == ENOTEMPTY
           else error == Success || (error == ENOENT && a.nodes[p].Dir? && left != Dentry(p))
    case (Open(p), Done(error)) => error == if p in a.nodes then Success else ENOENT
    case (Close(_), Done(error)) => error == Success
    case (Write(_, _, data), Moved(count, error)) => count == |data| && error == Success
    case (Read(p, off, n, _), Filled(count, error, _)) =>
      p in a.sizes && count == (if off <= a.sizes[p] then Min(n, a.sizes[p] - off) else n) && error != EIO
    case (SetSize(_, _), Done(error)) => error == Success
    case _ => false
  }

  /** No call changes the kind or the mode of a path that stays. */
  lemma ModesAreKept(a: Fs, op: Op, res: Res, p: CString)
    requires Allowed(a, op, res) && p in a.nodes && p in Apply(a, op, res).nodes
    ensures var node, node' := a.nodes[p], Apply(a, op, res).nodes[p];
            node'.mode == node.mode && (node'.Dir? <==> node.Dir?) && (node'.File? <==> node.File?)
  {
  }

  // Files without holes

  /** Every byte below both the recorded size and a handle's size has been written. */
  ghost predicate Dense(a: Fs, p: CString) {
    && (p in a.sizes ==> IsFile(a.nodes, p))
    && (IsFile(a.nodes, p) ==> forall i: nat :: i < a.nodes[p].size ==> i in a.nodes[p].bytes)
    && (p in a.sizes ==> forall i: nat :: i < a.sizes[p] ==> i in a.nodes[p].bytes)
  }

  /** Writes begin at or below the end, sizes are only ever reduced, and no delete of another path takes a block. */
  predicate Polite(a: Fs, op: Op, res: Res, p: CString) {
    match op
    case Write(q, off, _) => q == p && p in a.sizes ==> off <= a.sizes[p]
    case SetSize(q, size) => q == p && p in a.sizes ==> size <= a.sizes[p]
    case Delete(q, _) => res.Deleted? && res.gone.BlockGone? && res.gone.path == p ==> q == p
    case _ => true
  }

  /** The contents of an open file without holes. */
  ghost function Flat(a: Fs, p: CString): (c: seq<Byte>)
    requires p in a.sizes && Dense(a, p)
    ensures |c| == a.sizes[p]
  {
    seq<Byte>(a.sizes[p], i requires 0 <= i < a.sizes[p] => a.nodes[p].bytes[i])
  }

  lemma DenseIsKept(a: Fs, op: Op, res: Res, p: CString)
    requires Dense(a, p) && Polite(a, op, res, p) && Allowed(a, op, res)
    requires op.Delete? && res.Deleted? && (op.path == p || res.gone == PathGone(p)) ==> p !in a.sizes
    ensures Dense(Apply(a, op, res), p)
  {
  }

  /** The slice of c that was asked for is in the buffer, or a prefix of it when an I/O operation failed. */
  ghost predicate SliceRead(c: seq<Byte>, off: nat, n: nat, buf0: seq<Byte>, count: nat, error: Err, buf: seq<Byte>)
    requires off <= |c|
  {
    var slice := c[off..Min(off + n, |c|)];
    && count <= |slice| && count <= |buf0| && buf == slice[..count] + buf0[count..]
    && error == if count < |slice| then EIO else Success
  }

  /** How a call moves the byte sequence c of an open file p to c': a write replaces a slice, or for a failed call a
      shorter slice within the old length; a shrink keeps a prefix; a read below the end returns a slice; whatever
      else happens to the system, the bytes stay. */
  ghost predicate SequenceLaw(p: CString, op: Op, res: Res, c: seq<Byte>, c': seq<Byte>) {
    match (op, res)
    case (Write(q, off, data), Moved(count, error)) =>
      if q == p then
        && off <= |c| && count <= |data|
        && c' == if error == EIO then FlatWrite(c, off, data[..count])[..|c|] else FlatWrite(c, off, data)
      else c' == c
    case (Read(q, off, n, buf0), Filled(count, error, buf)) =>
      c' == c && (q == p && off <= |c| ==> SliceRead(c, off, n, buf0, count, error, buf))
    case (SetSize(q, size), Done(_)) => if q == p then size <= |c| && c' == c[..size] else c' == c
    case _ => c' == c
  }

  /** On a file without holes, calls do what they do on a byte sequence. */
  lemma FlatLaws(a: Fs, op: Op, res: Res, p: CString)
    requires Dense(a, p) && Polite(a, op, res, p) && Allowed(a, op, res)
    requires op.Delete? || op.Open? ==> op.path != p
    requires op.Delete? && res.Deleted? ==> res.gone != PathGone(p)
    requires p in a.sizes && p in Apply(a, op, res).sizes
    requires forall i :: i in a.nodes[p].bytes ==> Floor(i) in a.nodes[p].blocks
    ensures Dense(Apply(a, op, res), p)
    ensures SequenceLaw(p, op, res, Flat(a, p), Flat(Apply(a, op, res), p))
  {
    hide SliceRead, FlatWrite;
    DenseIsKept(a, op, res, p);
    if op.Write? && res.Moved? && op.path == p {
      WriteLaw(a, op, res);
    } else if op.SetSize? && res.Done? && op.path == p {
      assert Flat(Apply(a, op, res), p) == Flat(a, p)[..op.size];
    } else {
      assert Flat(Apply(a, op, res), p) == Flat(a, p);
      if op.Read? && res.Filled? && op.path == p && op.off <= a.sizes[p] {
        ReadLaw(a, p, op.off, op.n, op.buf, res);
      }
    }
  }

  lemma WriteLaw(a: Fs, op: Op, res: Res)
    requires op.Write? && res.Moved? && Dense(a, op.path) && Polite(a, op, res, op.path) && Allowed(a, op, res)
    requires op.path in a.sizes && op.path in Apply(a, op, res).sizes && Dense(Apply(a, op, res), op.path)
    ensures op.off <= a.sizes[op.path] && res.count <= |op.data|
    ensures var c, c' := Flat(a, op.path), Flat(Apply(a, op, res), op.path);
            c' == if res.error == EIO then FlatWrite(c, op.off, op.data[..res.count])[..|c|]
                  else FlatWrite(c, op.off, op.data)
  {
    var p, off, data := op.path, op.off, op.data[..res.count];
    var c, c' := Flat(a, p), Flat(Apply(a, op, res), p);
    assert res.error != EIO ==> data == op.data;
    assert Apply(a, op, res).nodes[p].bytes == PutBytes(a.nodes[p], off, data).bytes;
    hide FlatWrite;
    forall i | 0 <= i < |c'| ensures c'[i] == if off <= i < off + |data| then data[i - off] else c[i] {
      assert InRange(i, off, |data|) || i in a.nodes[p].bytes;
    }
    FlatWriteAt(c, off, data, c');
  }

  lemma FlatWriteAt(c: seq<Byte>, off: nat, data: seq<Byte>, c': seq<Byte>)
    requires off <= |c| && |c'| <= Max(|c|, off + |data|)
    requires forall i :: 0 <= i < |c'| ==> c'[i] == if off <= i < off + |data| then data[i - off] else c[i]
    ensures |FlatWrite(c, off, data)| == Max(|c|, off + |data|) && c' == FlatWrite(c, off, data)[..|c'|]
  {
  }

  lemma ReadLaw(a: Fs, p: CString, off: nat, n: nat, buf0: seq<Byte>, res: Res)
    requires p in a.sizes && Dense(a, p)
    requires forall i :: i in a.nodes[p].bytes ==> Floor(i) in a.nodes[p].blocks
    requires res.Filled? && Allowed(a, Read(p, off, n, buf0), res)
    requires off <= a.sizes[p]
    ensures SliceRead(Flat(a, p), off, n, buf0, res.count, res.error, res.buf)
  {
    var slice := Flat(a, p)[off..Min(off + n, a.sizes[p])];
    forall i | 0 <= i < res.count ensures res.buf[i] == slice[i] {
      assert off + i in a.nodes[p].bytes;
    }
  }
}
