/** Which stored paths a directory scan shows, and how that relates to the children of the directory. */
module Paths {
  import opened CStrings

  const ROOT: CString := [SLASH]

  /** Paths as callers build them: absolute, no empty component, no trailing slash except the root itself. */
  predicate Canonical(p: CString) {
    && p != [] && p[0] == SLASH
    && (forall i :: 0 <= i < |p| - 1 ==> !(p[i] == SLASH && p[i + 1] == SLASH))
    && (p != ROOT ==> p[|p| - 1] != SLASH)
  }

  function LastSlash(p: CString): (i: nat)
    requires p != [] && p[0] == SLASH
    ensures i < |p| && p[i] == SLASH
    ensures forall j :: i < j < |p| ==> p[j] != SLASH
  {
    if p[|p| - 1] == SLASH then |p| - 1 else LastSlash(p[..|p| - 1])
  }

  function Parent(p: CString): CString
    requires Canonical(p) && p != ROOT
  {
    if LastSlash(p) == 0 then ROOT else p[..LastSlash(p)]
  }

  /** The part of an entry that follows the locator and any slashes. */
  function NameAfter(locator: CString, p: CString): CString
    requires |locator| <= |p|
  {
    StripSlashes(p[|locator|..])
  }

  /** A stored path that the scan of a locator emits. */
  predicate Emitted(locator: CString, p: CString) {
    locator <= p && NameAfter(locator, p) != [] && SLASH !in NameAfter(locator, p)
  }

  /** A path that extends the locator as a string, but not as a directory. */
  predicate ExtendsName(locator: CString, p: CString) {
    locator != ROOT && locator < p && p[|locator|] != SLASH
  }

  /** The parent is a canonical proper prefix. */
  lemma ParentIsPrefix(p: CString)
    requires Canonical(p) && p != ROOT
    ensures Canonical(Parent(p)) && Parent(p) < p
  {
    var i := LastSlash(p);
    if i > 0 {
      var q := p[..i];
      assert q[0] == SLASH;
      NoDoubleSlash(p, i);
      forall j | 0 <= j < |q| - 1 ensures !(q[j] == SLASH && q[j + 1] == SLASH) {
        assert !(p[j] == SLASH && p[j + 1] == SLASH);
      }
    } else {
      assert |p| == 1 ==> p == ROOT;
    }
  }

  /** The emitted paths are the children, and besides them the siblings whose last component extends the locator's. */
  lemma EmittedPaths(locator: CString, p: CString)
    requires Canonical(locator) && Canonical(p)
    ensures Emitted(locator, p) <==>
      (p != ROOT && Parent(p) == locator) || (ExtendsName(locator, p) && SLASH !in p[|locator|..])
  {
    if p == ROOT {
      NotEmittedRoot(locator, p);
    } else if locator <= p && locator != p {
      EmittedBelow(locator, p);
    } else {
      ParentIsPrefix(p);
    }
  }

  lemma NotEmittedRoot(locator: CString, p: CString)
    requires Canonical(locator) && p == ROOT
    ensures !Emitted(locator, p)
  {
    if locator <= p {
      assert locator == ROOT;
      assert p[|locator|..] == [];
    }
  }

  lemma NoDoubleSlash(p: CString, i: nat)
    requires Canonical(p) && 0 < i < |p| && p[i] == SLASH
    ensures p[i - 1] != SLASH
    ensures i < |p| - 1 && p[i + 1] != SLASH
  {
    var j := i - 1;
    assert p[j + 1] == SLASH;
    assert p != ROOT;
  }

  lemma SlashFrom(p: CString, from: nat)
    requires p != [] && p[0] == SLASH && from <= |p|
    ensures SLASH in p[from..] <==> LastSlash(p) >= from
  {
    var i := LastSlash(p);
    if i >= from {
      assert p[from..][i - from] == SLASH;
    } else {
      forall j | 0 <= j < |p[from..]| ensures p[from..][j] != SLASH {
      }
    }
  }

  lemma EmittedBelow(locator: CString, p: CString)
    requires Canonical(locator) && Canonical(p) && p != ROOT && locator < p
    ensures Emitted(locator, p) <==> Parent(p) == locator || (ExtendsName(locator, p) && SLASH !in p[|locator|..])
  {
    var n := |locator|;
    var i := LastSlash(p);
    var rest := p[n..];
    SlashFrom(p, n);
    SlashFrom(p, n + 1);
    assert locator == p[..n];
    if p[n] == SLASH {
      NoDoubleSlash(p, n);
      assert StripSlashes(rest) == rest[1..] == p[n + 1..];
      assert Emitted(locator, p) <==> i == n;
      assert locator != ROOT;
    } else {
      assert StripSlashes(rest) == rest;
      assert Emitted(locator, p) <==> i < n;
      assert locator != ROOT ==> i != n - 1;
    }
  }

  /** A child's path is its parent's followed by its name, so children of one directory have different names. */
  lemma NameDeterminesChild(locator: CString, p: CString)
    requires Canonical(locator) && Canonical(p) && p != ROOT && Parent(p) == locator
    ensures locator < p && Emitted(locator, p)
    ensures p == locator + (if locator == ROOT then [] else [SLASH]) + NameAfter(locator, p)
  {
    ParentIsPrefix(p);
    EmittedBelow(locator, p);
    var n := |locator|;
    assert locator == p[..n];
    SlashFrom(p, n);
    if p[n] == SLASH {
      NoDoubleSlash(p, n);
      assert StripSlashes(p[n..]) == p[n..][1..] == p[n + 1..];
      assert p == p[..n] + [SLASH] + p[n + 1..];
      assert locator != ROOT;
    } else {
      assert StripSlashes(p[n..]) == p[n..];
      assert p == p[..n] + p[n..];
      assert locator == ROOT;
    }
  }

  /** A path below a directory, other than its child, has its own parent below that directory. */
  lemma ParentStaysBelow(top: CString, q: CString)
    requires Canonical(top) && Canonical(q) && top < q && !ExtendsName(top, q) && Parent(q) != top
    ensures Canonical(Parent(q)) && top < Parent(q) < q && !ExtendsName(top, Parent(q))
  {
    ParentIsPrefix(q);
    assert top == q[..|top|];
    if top != ROOT {
      SlashFrom(q, |top|);
      assert q[..|top|] != Parent(q);
      assert q[|top|..][0] == SLASH;
    }
  }
}
