/** The C string functions that dbfs applies to its paths.

    A C string is the sequence of its bytes without the terminating NUL, so no byte is zero.
    Bytes compare as unsigned char, as section 7.24.4 of ISO/IEC 9899:2011 requires. */
module CStrings {
  type CChar = x: int | 1 <= x < 256 witness 1
  type CString = seq<CChar>

  const SLASH: CChar := 47

  /** strcmp: the terminating NUL takes part in the comparison, as the value 0. */
  function StrCmp(a: CString, b: CString): int {
    if a == [] then (if b == [] then 0 else -b[0])
    else if b == [] then a[0]
    else if a[0] != b[0] then a[0] - b[0]
    else StrCmp(a[1..], b[1..])
  }

  /** strstr: where the first occurrence of needle in hay begins. */
  function StrStr(hay: CString, needle: CString): (at: int)
    ensures at == 0 <==> needle <= hay
    ensures -1 <= at <= |hay|
    ensures at >= 0 ==> needle <= hay[at..]
    ensures forall j :: 0 <= j <= |hay| && (at == -1 || j < at) ==> !(needle <= hay[j..])
  {
    if needle <= hay then 0
    else if hay == [] then -1
    else
      var rest := StrStr(hay[1..], needle);
      assert forall j :: 0 < j <= |hay| ==> hay[j..] == hay[1..][j - 1..];
      if rest == -1 then -1 else rest + 1
  }

  /** The loop `while (*entry == '/') entry++`. */
  function StripSlashes(s: CString): (r: CString)
    ensures r != [] ==> r[0] != SLASH
  {
    if s != [] && s[0] == SLASH then StripSlashes(s[1..]) else s
  }

  lemma {:induction false} StrCmpOpposite(a: CString, b: CString)
    ensures StrCmp(a, b) == -StrCmp(b, a)
    ensures StrCmp(a, b) == 0 <==> a == b
  {
    if a != [] && b != [] && a[0] == b[0] {
      StrCmpOpposite(a[1..], b[1..]);
      assert a == [a[0]] + a[1..] && b == [b[0]] + b[1..];
    }
  }

  lemma {:induction false} StrCmpTransitive(a: CString, b: CString, c: CString)
    requires StrCmp(a, b) <= 0 && StrCmp(b, c) <= 0
    ensures StrCmp(a, c) <= 0
    ensures StrCmp(a, b) < 0 || StrCmp(b, c) < 0 ==> StrCmp(a, c) < 0
  {
    if a != [] && b != [] && c != [] && a[0] == b[0] == c[0] {
      StrCmpTransitive(a[1..], b[1..], c[1..]);
    }
  }

  /** a and b first differ at i. */
  predicate DifferAt(a: CString, b: CString, i: nat) {
    i < |a| && i < |b| && a[..i] == b[..i] && a[i] != b[i]
  }

  /** The dictionary order: a is a proper prefix of b, or has the smaller byte where they first differ. */
  ghost predicate LexLess(a: CString, b: CString) {
    a < b || exists i: nat :: DifferAt(a, b, i) && a[i] < b[i]
  }

  /** strcmp compares by the first bytes that differ. */
  lemma {:induction false} StrCmpDecides(a: CString, b: CString, i: nat)
    requires DifferAt(a, b, i)
    ensures StrCmp(a, b) < 0 <==> a[i] < b[i]
  {
    if i > 0 {
      assert a[0] == a[..i][0] == b[..i][0] == b[0];
      assert a[1..][..i - 1] == a[..i][1..] == b[..i][1..] == b[1..][..i - 1];
      StrCmpDecides(a[1..], b[1..], i - 1);
    }
  }

  lemma {:induction false} ProperPrefixIsLess(a: CString, b: CString)
    requires a < b
    ensures StrCmp(a, b) < 0
  {
    if a != [] {
      ProperPrefixIsLess(a[1..], b[1..]);
    }
  }

  /** Two strings either differ somewhere or one is a prefix of the other. */
  lemma {:induction false} DifferOrPrefix(a: CString, b: CString)
    ensures a <= b || b <= a || exists i: nat :: DifferAt(a, b, i)
  {
    if a != [] && b != [] {
      if a[0] != b[0] {
        assert DifferAt(a, b, 0);
      } else {
        DifferOrPrefix(a[1..], b[1..]);
        if i: nat :| DifferAt(a[1..], b[1..], i) {
          assert a[..i + 1] == [a[0]] + a[1..][..i] && b[..i + 1] == [b[0]] + b[1..][..i];
          assert DifferAt(a, b, i + 1);
        } else {
          assert a == [a[0]] + a[1..] && b == [b[0]] + b[1..];
        }
      }
    }
  }

  /** strcmp is the dictionary order of unsigned bytes. */
  lemma StrCmpIsLex(a: CString, b: CString)
    ensures StrCmp(a, b) < 0 <==> LexLess(a, b)
  {
    hide StrCmp;
    forall i: nat | DifferAt(a, b, i) ensures StrCmp(a, b) < 0 <==> a[i] < b[i] {
      StrCmpDecides(a, b, i);
    }
    if a < b {
      ProperPrefixIsLess(a, b);
    } else if b < a {
      ProperPrefixIsLess(b, a);
      StrCmpOpposite(a, b);
    } else if a == b {
      StrCmpOpposite(a, b);
    } else {
      DifferOrPrefix(a, b);
      if i: nat :| DifferAt(a, b, i) && a[i] < b[i] {
        assert LexLess(a, b);
      }
    }
  }

  /** A common front does not matter. */
  lemma {:induction false} StrCmpSameFront(p: CString, a: CString, b: CString)
    ensures StrCmp(p + a, p + b) == StrCmp(a, b)
  {
    if p == [] {
      assert p + a == a && p + b == b;
    } else {
      assert (p + a)[1..] == p[1..] + a && (p + b)[1..] == p[1..] + b;
      StrCmpSameFront(p[1..], a, b);
    }
  }

  /** Every string with prefix p is at or after p. */
  lemma {:induction false} PrefixIsLeast(p: CString, a: CString)
    requires p <= a
    ensures StrCmp(p, a) <= 0
  {
    if p != [] {
      PrefixIsLeast(p[1..], a[1..]);
    }
  }

  /** The strings with prefix p form an interval of the strcmp order. */
  lemma {:induction false} PrefixIsConvex(p: CString, a: CString, b: CString, c: CString)
    requires p <= a && p <= c
    requires StrCmp(a, b) <= 0 && StrCmp(b, c) <= 0
    ensures p <= b
  {
    if p != [] {
      PrefixIsConvex(p[1..], a[1..], b[1..], c[1..]);
      assert b == [b[0]] + b[1..] && p == [p[0]] + p[1..];
    }
  }
}
