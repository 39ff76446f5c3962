/** The consumer of a directory scan: struct mf_dir without its handle, and mf_filler.

    The buffer that FUSE lends to a call accepts or refuses entries. Which of them it refuses is a parameter of the
    call: `plan` holds its answers in order, and once they run out it refuses; `asked` counts the entries offered so
    far. A buffer with room for k entries has k times true as its plan. */
module Filler {
  import opened CStrings
  import opened Store

  datatype Entry = Entry(name: CString, kind: Kind)

  /** plan, asked and entries belong to the buffer of the current call; the rest lives as long as the open directory.
      reported is the offset that went to FUSE with the entry accepted last. */
  datatype Sink = Sink(plan: seq<bool>, asked: nat, entries: seq<Entry>,
                       curOff: nat, startingOff: nat, saved: Option<Entry>, savedOff: nat, reported: nat)

  datatype Option<T> = None | Some(value: T)

  predicate Accepts(plan: seq<bool>, i: nat) {
    i < |plan| && plan[i]
  }

  class DirSink {
    var plan: seq<bool>
    var asked: nat
    var entries: seq<Entry>
    var curOff: nat
    var startingOff: nat
    var saved: Option<Entry>
    var savedOff: nat
    var reported: nat

    function State(): Sink
      reads this
    {
      Sink(plan, asked, entries, curOff, startingOff, saved, savedOff, reported)
    }

    /** mf_opendir: startingOff and savedOff come from malloc and hold anything. */
    constructor ()
      ensures curOff == 0 && saved == None
    {
      curOff, saved := 0, None;
      plan, asked, entries := [], 0, [];
    }

    /** fuse_fill_dir_t: true when the buffer is full. */
    method Fill(e: Entry, off: nat) returns (full: bool)
      modifies this`asked, this`entries, this`reported
      ensures full == !Accepts(plan, old(asked))
      ensures asked == old(asked) + 1
      ensures entries == if full then old(entries) else old(entries) + [e]
      ensures reported == if full then old(reported) else off
    {
      full := asked >= |plan| || !plan[asked];
      asked := asked + 1;
      if !full {
        entries, reported := entries + [e], off;
      }
    }

    /** mf_filler */
    method MfFiller(e: Entry) returns (error: Err)
      modifies this
      ensures (State(), error) == Pushed(old(State()), e)
    {
      if curOff >= startingOff {
        var full := Fill(e, curOff);
        if full {
          saved, savedOff := Some(e), curOff;
          return ENOBUFS;
        }
      }
      curOff := curOff + 1;
      return Success;
    }
  }

  /** How many of the next entries are passed over because the caller resumed beyond the current offset. */
  function Skipped(s: Sink): nat {
    if s.curOff < s.startingOff then s.startingOff - s.curOff else 0
  }

  function Sub(a: nat, b: nat): nat {
    if b < a then a - b else 0
  }

  /** The effect of mf_filler: an entry below startingOff is only counted, others are put in the buffer, and one that
      the buffer refuses is stashed without being counted. */
  function Pushed(s: Sink, e: Entry): (Sink, Err) {
    if s.curOff < s.startingOff then (s.(curOff := s.curOff + 1), Success)
    else if Accepts(s.plan, s.asked) then
      (s.(asked := s.asked + 1, entries := s.entries + [e], curOff := s.curOff + 1, reported := s.curOff), Success)
    else
      (s.(asked := s.asked + 1, saved := Some(e), savedOff := s.curOff), ENOBUFS)
  }

  /** The entries es were offered in order and n of them were taken: those beyond the skipped ones are in the buffer,
      in order. When the buffer refused, it was the entry after them, and that one is stashed. */
  ghost predicate Fed(s: Sink, es: seq<Entry>, n: nat, s': Sink, error: Err) {
    var skip := Skipped(s);
    var d := Sub(n, skip);
    && n <= |es|
    && s'.curOff == s.curOff + n && s'.startingOff == s.startingOff
    && s'.entries == s.entries + es[n - d..n]
    && (forall j :: s.asked <= j < s.asked + d ==> Accepts(s.plan, j))
    && s'.plan == s.plan
    && s'.reported == (if d > 0 then s'.curOff - 1 else s.reported)
    && (if error == ENOBUFS then
          && skip <= n < |es|
          && !Accepts(s.plan, s.asked + d)
          && s'.asked == s.asked + d + 1
          && s'.saved == Some(es[n]) && s'.savedOff == s'.curOff
        else
          && s'.asked == s.asked + d
          && s'.saved == s.saved && s'.savedOff == s.savedOff)
  }

  lemma FedNone(s: Sink, es: seq<Entry>)
    ensures Fed(s, es, 0, s, Success)
  {
    assert s.entries + es[0..0] == s.entries;
  }

  lemma FedUntilFault(s: Sink, es: seq<Entry>, n: nat, s': Sink)
    requires Fed(s, es, n, s', Success)
    ensures Fed(s, es, n, s', EIO)
  {
  }

  lemma PushedIsFed(s: Sink, e: Entry, tail: seq<Entry>)
    ensures var (s', error) := Pushed(s, e);
            Fed(s, [e] + tail, if error == Success then 1 else 0, s', error)
  {
    var es := [e] + tail;
    var s' := Pushed(s, e).0;
    if s.curOff < s.startingOff {
      assert s'.entries == s.entries + es[1..1];
    } else if Accepts(s.plan, s.asked) {
      assert s'.entries == s.entries + es[0..1];
    } else {
      assert s'.entries == s.entries + es[0..0];
    }
  }

  /** Feeding continues where it stopped. */
  lemma FedThen(s: Sink, es: seq<Entry>, n: nat, mid: Sink, k: nat, s': Sink, error: Err)
    requires Fed(s, es, n, mid, Success) && Fed(mid, es[n..], k, s', error)
    ensures Fed(s, es, n + k, s', error)
    ensures n + k <= |es| && (error == ENOBUFS ==> n + k < |es|)
  {
    var d, d2 := Sub(n, Skipped(s)), Sub(k, Skipped(mid));
    assert Sub(n + k, Skipped(s)) == d + d2;
    JoinSlices(es, n, d, k, d2);
    assert s'.entries == s.entries + (es[n - d..n] + es[n..][k - d2..k]);
  }

  lemma TailOfSlice<T>(es: seq<T>, n: nat, x: T, rest: seq<T>)
    requires n <= |es| && es[n..] == [x] + rest
    ensures n < |es| && es[n + 1..] == rest
  {
    assert es[n..][1..] == es[n + 1..];
  }

  lemma JoinSlices<T>(es: seq<T>, n: nat, d: nat, k: nat, d2: nat)
    requires d <= n && d2 <= k && n + k <= |es| && (d > 0 ==> d2 == k)
    ensures es[n - d..n] + es[n..][k - d2..k] == es[n + k - (d + d2)..n + k]
  {
  }
}
