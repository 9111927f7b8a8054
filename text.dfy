/**
 * The string operations of the bridge, with JavaScript's meaning:
 * `String.prototype.trim`, `s.split(sep)[0]`, `s.split('/').pop()` and
 * `startsWith`. Strings are sequences of characters. Each function is
 * defined by recursion and characterized by a lemma.
 */
module Text {

  /** The characters `trim` removes: ECMAScript WhiteSpace and LineTerminator. */
  predicate IsJsSpace(c: char)
  {
    || c == '\t' || c == '\n' || c == '\U{000B}' || c == '\U{000C}' || c == '\r'
    || c == ' ' || c == '\U{00A0}' || c == '\U{1680}'
    || ('\U{2000}' <= c <= '\U{200A}')
    || c == '\U{2028}' || c == '\U{2029}' || c == '\U{202F}' || c == '\U{205F}'
    || c == '\U{3000}' || c == '\U{FEFF}'
  }

  /** Every character of `s` is white space (the empty string included). */
  predicate Blank(s: string)
  {
    forall i :: 0 <= i < |s| ==> IsJsSpace(s[i])
  }

  /** Drops the leading white space. */
  function TrimStart(s: string): string
  {
    if s == [] || !IsJsSpace(s[0]) then s else TrimStart(s[1..])
  }

  /** Drops the trailing white space. */
  function TrimEnd(s: string): string
  {
    if s == [] || !IsJsSpace(s[|s| - 1]) then s else TrimEnd(s[..|s| - 1])
  }

  /** `s.trim()`. */
  function Trim(s: string): string
  {
    TrimEnd(TrimStart(s))
  }

  /** `TrimStart(s)` is the suffix of `s` after its leading white space. */
  lemma {:induction false} TrimStartSpec(s: string)
    ensures var r := TrimStart(s);
      && |r| <= |s| && r == s[|s| - |r|..]
      && (forall i :: 0 <= i < |s| - |r| ==> IsJsSpace(s[i]))
      && (r == [] || !IsJsSpace(r[0]))
  {
    if s != [] && IsJsSpace(s[0]) {
      var t := s[1..];
      TrimStartSpec(t);
      var r := TrimStart(t);
      assert TrimStart(s) == r;
      assert t[|t| - |r|..] == s[|s| - |r|..];
      forall i | 0 <= i < |s| - |r| ensures IsJsSpace(s[i]) {
        if i > 0 {
          assert s[i] == t[i - 1];
        }
      }
    }
  }

  /** `TrimEnd(s)` is the prefix of `s` before its trailing white space. */
  lemma {:induction false} TrimEndSpec(s: string)
    ensures var r := TrimEnd(s);
      && |r| <= |s| && r == s[..|r|]
      && (forall i :: |r| <= i < |s| ==> IsJsSpace(s[i]))
      && (r == [] || !IsJsSpace(r[|r| - 1]))
  {
    if s != [] && IsJsSpace(s[|s| - 1]) {
      TrimEndSpec(s[..|s| - 1]);
    }
  }

  /**
   * `r` is `s` with white space cut off both ends: it is the slice
   * `s[k..k + |r|]`, everything of `s` before and after it is white space,
   * and it neither starts nor ends with white space.
   */
  predicate TrimmedSlice(s: string, k: int, r: string)
  {
    && 0 <= k && k + |r| <= |s| && r == s[k..k + |r|]
    && (forall i :: 0 <= i < k ==> IsJsSpace(s[i]))
    && (forall i :: k + |r| <= i < |s| ==> IsJsSpace(s[i]))
    && (r != [] ==> !IsJsSpace(r[0]) && !IsJsSpace(r[|r| - 1]))
  }

  /** `s.trim()` is `s` with its leading and trailing white space cut off; it is empty exactly when `s` is blank. */
  lemma TrimSpec(s: string)
    ensures TrimmedSlice(s, |s| - |TrimStart(s)|, Trim(s))
    ensures Trim(s) == [] <==> Blank(s)
  {
    var a := TrimStart(s);
    TrimStartSpec(s);
    TrimEndSpec(a);
    var r := TrimEnd(a);
    var k := |s| - |a|;
    assert r == s[k..][..|r|];
    if r == [] {
      assert a == [];
    }
    forall i | k + |r| <= i < |s| ensures IsJsSpace(s[i]) {
      assert s[i] == a[i - k];
    }
    assert r != [] ==> r[0] == a[0];
    TrimmedSliceIntro(s, k, r);
  }

  /** Assembles `TrimmedSlice` from its four parts. */
  lemma TrimmedSliceIntro(s: string, k: int, r: string)
    requires 0 <= k && k + |r| <= |s| && r == s[k..k + |r|]
    requires forall i :: 0 <= i < k ==> IsJsSpace(s[i])
    requires forall i :: k + |r| <= i < |s| ==> IsJsSpace(s[i])
    requires r != [] ==> !IsJsSpace(r[0]) && !IsJsSpace(r[|r| - 1])
    ensures TrimmedSlice(s, k, r)
  {
  }

  /** The trimmed slice of a string is unique, so `TrimSpec` determines `s.trim()`. */
  lemma TrimmedSliceUnique(s: string, k1: int, r1: string, k2: int, r2: string)
    requires TrimmedSlice(s, k1, r1) && TrimmedSlice(s, k2, r2)
    ensures r1 == r2
  {
  }


  /** `sep` occurs in `s` starting at index `i`. */
  predicate OccursAt(s: string, sep: string, i: nat)
  {
    i + |sep| <= |s| && s[i..i + |sep|] == sep
  }

  /**
   * `s.split(sep)[0]`: the part of `s` before the first occurrence of `sep`,
   * or all of `s` when `sep` does not occur in it.
   */
  function Before(s: string, sep: string): string
    requires sep != []
    decreases |s|
  {
    if |s| < |sep| then s
    else if s[..|sep|] == sep then []
    else [s[0]] + Before(s[1..], sep)
  }

  /** `Before(s, sep)` is a prefix of `s`. */
  lemma {:induction false} BeforePrefix(s: string, sep: string)
    requires sep != []
    ensures |Before(s, sep)| <= |s| && Before(s, sep) == s[..|Before(s, sep)|]
    decreases |s|
  {
    if |s| >= |sep| && s[..|sep|] != sep {
      var rest := Before(s[1..], sep);
      BeforePrefix(s[1..], sep);
      var r := [s[0]] + rest;
      assert Before(s, sep) == r;
      assert rest == s[1..][..|rest|] == s[1..|r|];
    }
  }

  /** `Before(s, sep)` is followed in `s` by `sep`, unless it is all of `s`. */
  lemma {:induction false} BeforeFollowed(s: string, sep: string)
    requires sep != []
    ensures |Before(s, sep)| < |s| ==> OccursAt(s, sep, |Before(s, sep)|)
    decreases |s|
  {
    if |s| >= |sep| && s[..|sep|] != sep {
      var rest := Before(s[1..], sep);
      BeforeFollowed(s[1..], sep);
      BeforePrefix(s[1..], sep);
      if |rest| + 1 < |s| {
        assert s[1..][|rest|..|rest| + |sep|] == s[|rest| + 1..|rest| + 1 + |sep|];
      }
    }
  }

  /** `sep` does not start anywhere inside `Before(s, sep)`: it is cut at the first occurrence. */
  lemma {:induction false} BeforeFirst(s: string, sep: string)
    requires sep != []
    ensures forall i: nat :: i < |Before(s, sep)| ==> !OccursAt(s, sep, i)
    decreases |s|
  {
    if |s| >= |sep| && s[..|sep|] != sep {
      BeforeFirst(s[1..], sep);
      NoEarlierOccurrence(s, sep, Before(s[1..], sep));
    }
  }

  /**
   * `b` is the part of `s` before the first occurrence of `sep`: a prefix
   * of `s` in which `sep` does not start, followed in `s` by `sep` unless it
   * is all of `s`.
   */
  predicate FirstSplit(s: string, sep: string, b: string)
  {
    && |b| <= |s| && b == s[..|b|]
    && (forall i: nat :: i < |b| ==> !OccursAt(s, sep, i))
    && (|b| < |s| ==> OccursAt(s, sep, |b|))
  }

  /** `s.split(sep)[0]` is the part of `s` before the first occurrence of `sep`. */
  lemma BeforeSpec(s: string, sep: string)
    requires sep != []
    ensures FirstSplit(s, sep, Before(s, sep))
  {
    BeforePrefix(s, sep);
    BeforeFollowed(s, sep);
    BeforeFirst(s, sep);
  }

  /** The first split is unique, so `BeforeSpec` determines `s.split(sep)[0]`. */
  lemma FirstSplitUnique(s: string, sep: string, b1: string, b2: string)
    requires FirstSplit(s, sep, b1) && FirstSplit(s, sep, b2)
    ensures b1 == b2
  {
  }


  /** No occurrence before index `|rest|` of `s[1..]` means none before `|rest| + 1` of `s`. */
  lemma NoEarlierOccurrence(s: string, sep: string, rest: string)
    requires |s| >= |sep| > 0 && s[..|sep|] != sep
    requires forall i: nat :: i < |rest| ==> !OccursAt(s[1..], sep, i)
    ensures forall i: nat :: i < |rest| + 1 ==> !OccursAt(s, sep, i)
  {
    forall i: nat | i < |rest| + 1 ensures !OccursAt(s, sep, i) {
      if i > 0 && OccursAt(s, sep, i) {
        assert s[1..][i - 1..i - 1 + |sep|] == s[i..i + |sep|];
        assert OccursAt(s[1..], sep, i - 1);
      }
    }
  }

  /** `t.split('/').pop()`. */
  function LastSegment(t: string): string
  {
    if t == [] || t[|t| - 1] == '/' then []
    else LastSegment(t[..|t| - 1]) + [t[|t| - 1]]
  }

  /**
   * `LastSegment(t)` is the suffix of `t` after its last `/` (all of `t`
   * when it has none): it holds no `/`, and a `/` precedes it otherwise.
   */
  lemma {:induction false} LastSegmentSpec(t: string)
    ensures var r := LastSegment(t);
      && |r| <= |t| && r == t[|t| - |r|..]
      && (forall i :: 0 <= i < |r| ==> r[i] != '/')
      && (|r| < |t| ==> t[|t| - |r| - 1] == '/')
  {
    if t != [] && t[|t| - 1] != '/' {
      LastSegmentSpec(t[..|t| - 1]);
    }
  }

  /** `t.startsWith(p)`. */
  predicate StartsWith(t: string, p: string)
  {
    |p| <= |t| && t[..|p|] == p
  }

}
