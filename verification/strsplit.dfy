/**
 Python's `str.split(sep)`, `str.split(sep, 1)` and `sep.join(pieces)` for a
 non-empty separator, on strings as sequences of characters.

 `Split` cuts left to right at non-overlapping occurrences of the separator,
 so k cuts give k + 1 pieces. `IsSplitOf` states what Python promises about
 the result independently of how it is computed, and the lemmas below show
 that `Split` meets that promise and is the only list that does.
 */
module StrSplit {

  /** `sep` occurs in `s` starting at index `i`. */
  predicate OccursAt(s: string, sep: string, i: int) {
    0 <= i && i + |sep| <= |s| && s[i..i + |sep|] == sep
  }

  /** No occurrence of `sep` in `s` starts before index `k`. */
  predicate NoneBefore(s: string, sep: string, k: int) {
    forall j :: 0 <= j < k ==> !OccursAt(s, sep, j)
  }

  /** Number of (possibly overlapping) positions at which `sep` occurs in `s`. */
  function Occurrences(s: string, sep: string): nat
    requires |sep| > 0
    decreases |s|
  {
    if |s| < |sep| then 0
    else (if s[..|sep|] == sep then 1 else 0) + Occurrences(s[1..], sep)
  }

  /** `sep.join(pieces)`. */
  function Join(pieces: seq<string>, sep: string): string {
    if |pieces| == 0 then ""
    else if |pieces| == 1 then pieces[0]
    else pieces[0] + sep + Join(pieces[1..], sep)
  }

  /** `s.split(sep)`: scan left to right, cutting at each occurrence of `sep`. */
  function Split(s: string, sep: string): (r: seq<string>)
    requires |sep| > 0
    ensures |r| >= 1
    decreases |s|
  {
    if |s| < |sep| then [s]
    else if s[..|sep|] == sep then [""] + Split(s[|sep|..], sep)
    else
      var rest := Split(s[1..], sep);
      [[s[0]] + rest[0]] + rest[1..]
  }

  /** `s.split(sep, 1)`: the list Python returns, of length 1 when `sep` does
      not occur and of length 2 (before and after the first occurrence) when it does. */
  function SplitOnce(s: string, sep: string): (r: seq<string>)
    requires |sep| > 0
    ensures |r| == 1 || |r| == 2
    decreases |s|
  {
    if |s| < |sep| then [s]
    else if s[..|sep|] == sep then ["", s[|sep|..]]
    else
      var rest := SplitOnce(s[1..], sep);
      if |rest| == 1 then [s] else [[s[0]] + rest[0], rest[1]]
  }

  /** What Python promises about `s.split(sep)`: joining the pieces with `sep`
      gives `s` back, every cut is at the leftmost occurrence of `sep` still
      ahead (no occurrence starts inside a piece or overlaps the separator
      that ends it), and the last piece holds no occurrence at all. */
  predicate IsSplitOf(pieces: seq<string>, s: string, sep: string) {
    && |pieces| >= 1
    && Join(pieces, sep) == s
    && (forall i :: 0 <= i < |pieces| - 1 ==> NoneBefore(pieces[i] + sep, sep, |pieces[i]|))
    && NoneBefore(pieces[|pieces| - 1], sep, |pieces[|pieces| - 1]|)
  }

  // ---------------------------------------------------------------------------
  // Small facts about occurrences and joins
  // ---------------------------------------------------------------------------

  /** An occurrence one character further in `[c] + t` is an occurrence in `t`. */
  lemma OccursAtCons(c: char, t: string, sep: string, j: int)
    requires 1 <= j
    ensures OccursAt([c] + t, sep, j) <==> OccursAt(t, sep, j - 1)
  {
    if j + |sep| <= |[c] + t| {
      assert ([c] + t)[j..j + |sep|] == t[j - 1..j - 1 + |sep|];
    }
  }

  /** Prepending a character that does not start an occurrence shifts the
      occurrence-free prefix by one. */
  lemma NoneBeforeCons(c: char, t: string, sep: string, k: int)
    requires NoneBefore(t, sep, k)
    requires !OccursAt([c] + t, sep, 0)
    ensures NoneBefore([c] + t, sep, k + 1)
  {
    forall j | 1 <= j < k + 1
      ensures !OccursAt([c] + t, sep, j)
    {
      OccursAtCons(c, t, sep, j);
    }
  }

  /** Dropping the first character keeps an occurrence-free prefix, one shorter. */
  lemma NoneBeforeTail(c: char, t: string, sep: string, k: int)
    requires NoneBefore([c] + t, sep, k + 1)
    ensures NoneBefore(t, sep, k)
  {
    forall j | 0 <= j < k
      ensures !OccursAt(t, sep, j)
    {
      OccursAtCons(c, t, sep, j + 1);
    }
  }

  /** An occurrence inside a prefix is an occurrence in the whole string. */
  lemma OccursAtPrefix(u: string, s: string, sep: string, j: int)
    requires u <= s
    requires OccursAt(u, sep, j)
    ensures OccursAt(s, sep, j)
  {
    assert s[j..j + |sep|] == u[j..j + |sep|];
  }

  /** A prefix at least as long as `sep` starts with `sep` exactly when `s` does. */
  lemma OccursAtZeroPrefix(u: string, s: string, sep: string)
    requires u <= s && |sep| <= |u|
    ensures OccursAt(u, sep, 0) <==> OccursAt(s, sep, 0)
  {
    assert u[..|sep|] == s[..|sep|];
  }

  /** With two or more pieces, the join is the first piece, the separator and the rest. */
  lemma JoinUnfold(pieces: seq<string>, sep: string)
    requires |pieces| >= 2
    ensures Join(pieces, sep) == pieces[0] + sep + Join(pieces[1..], sep)
  {
  }

  /** Growing the first piece by a character grows the join by that character. */
  lemma JoinConsHead(c: char, ps: seq<string>, sep: string)
    requires |ps| >= 1
    ensures Join([[c] + ps[0]] + ps[1..], sep) == [c] + Join(ps, sep)
  {
    var q := [[c] + ps[0]] + ps[1..];
    assert q[1..] == ps[1..];
    if |ps| >= 2 {
      calc {
        Join(q, sep);
        q[0] + sep + Join(q[1..], sep);
        ([c] + ps[0]) + sep + Join(ps[1..], sep);
        [c] + (ps[0] + sep + Join(ps[1..], sep));
      }
    }
  }

  /** The first piece of any list of pieces is a prefix of their join. */
  lemma JoinFirstPrefix(ps: seq<string>, sep: string)
    requires |ps| >= 1
    ensures ps[0] <= Join(ps, sep)
    ensures |ps| >= 2 ==> ps[0] + sep <= Join(ps, sep)
  {
    if |ps| >= 2 {
      JoinUnfold(ps, sep);
      assert Join(ps, sep) == (ps[0] + sep) + Join(ps[1..], sep);
    }
  }

  // ---------------------------------------------------------------------------
  // Split meets Python's promise, and is the only list that does
  // ---------------------------------------------------------------------------

  /** A cut at the very start: an empty first piece in front of the pieces
      of the rest. */
  lemma SplitOfSepHead(ps: seq<string>, t: string, sep: string)
    requires |sep| > 0 && IsSplitOf(ps, t, sep)
    ensures IsSplitOf([""] + ps, sep + t, sep)
  {
    var q := [""] + ps;
    assert q[1..] == ps;
    JoinUnfold(q, sep);
    assert ("" + sep) == sep;
    forall i | 0 <= i < |q| - 1
      ensures NoneBefore(q[i] + sep, sep, |q[i]|)
    {
      if i > 0 {
        assert q[i] == ps[i - 1];
      }
    }
    assert q[|q| - 1] == ps[|ps| - 1];
  }

  /** No cut at the start: the first character joins the first piece of the
      rest. */
  lemma SplitOfCharHead(c: char, ps: seq<string>, t: string, sep: string)
    requires |sep| > 0 && IsSplitOf(ps, t, sep)
    requires !OccursAt([c] + t, sep, 0)
    ensures IsSplitOf([[c] + ps[0]] + ps[1..], [c] + t, sep)
  {
    var s := [c] + t;
    var q := [[c] + ps[0]] + ps[1..];
    JoinConsHead(c, ps, sep);
    if |ps| >= 2 {
      // the first piece now ends where the first cut of `t` was
      var u := [c] + ps[0] + sep;
      JoinFirstPrefix(ps, sep);
      assert u <= s;
      OccursAtZeroPrefix(u, s, sep);
      assert [c] + (ps[0] + sep) == u;
      NoneBeforeCons(c, ps[0] + sep, sep, |ps[0]|);
      forall i | 0 <= i < |q| - 1
        ensures NoneBefore(q[i] + sep, sep, |q[i]|)
      {
        if i > 0 {
          assert q[i] == ps[i];
        }
      }
      assert q[|q| - 1] == ps[|ps| - 1];
    } else {
      assert q == [s];
      NoneBeforeCons(c, t, sep, |t|);
    }
  }

  /** `Split` satisfies every clause of `IsSplitOf`. */
  lemma {:induction false} SplitIsSplitOf(s: string, sep: string)
    requires |sep| > 0
    ensures IsSplitOf(Split(s, sep), s, sep)
    decreases |s|
  {
    if |s| < |sep| {
      assert Split(s, sep) == [s];
    } else if s[..|sep|] == sep {
      var t := s[|sep|..];
      SplitIsSplitOf(t, sep);
      SplitOfSepHead(Split(t, sep), t, sep);
      assert s == sep + t;
    } else {
      var t := s[1..];
      SplitIsSplitOf(t, sep);
      assert s == [s[0]] + t;
      assert !OccursAt(s, sep, 0);
      SplitOfCharHead(s[0], Split(t, sep), t, sep);
    }
  }

  /** Round trip: joining the pieces of a split restores the string. */
  lemma JoinSplit(s: string, sep: string)
    requires |sep| > 0
    ensures Join(Split(s, sep), sep) == s
  {
    SplitIsSplitOf(s, sep);
  }

  /** Any list of pieces meeting Python's promise is exactly `Split`'s result. */
  lemma {:induction false} SplitUnique(ps: seq<string>, s: string, sep: string)
    requires |sep| > 0
    requires IsSplitOf(ps, s, sep)
    ensures ps == Split(s, sep)
    decreases |s|
  {
    if |ps| >= 2 {
      JoinUnfold(ps, sep);
      JoinFirstPrefix(ps, sep);
    }
    if |s| < |sep| {
      assert |ps| == 1;
    } else if s[..|sep|] == sep {
      assert OccursAt(s, sep, 0);
      assert |ps| >= 2;
      OccursAtZeroPrefix(ps[0] + sep, s, sep);
      assert ps[0] == "";
      assert ps[0] + sep == sep;
      assert s[|sep|..] == Join(ps[1..], sep);
      var qs := ps[1..];
      forall i | 0 <= i < |qs| - 1
        ensures NoneBefore(qs[i] + sep, sep, |qs[i]|)
      {
        assert qs[i] == ps[i + 1];
      }
      assert qs[|qs| - 1] == ps[|ps| - 1];
      SplitUnique(qs, s[|sep|..], sep);
      assert ps == [""] + qs;
    } else {
      assert !OccursAt(s, sep, 0);
      if |ps| >= 2 {
        OccursAtZeroPrefix(ps[0] + sep, s, sep);
      }
      assert |ps[0]| > 0;
      var c := ps[0][0];
      var q0 := ps[0][1..];
      assert ps[0] == [c] + q0;
      var qs := [q0] + ps[1..];
      assert ps == [[c] + qs[0]] + qs[1..];
      JoinConsHead(c, qs, sep);
      assert s == [c] + Join(qs, sep);
      assert s[0] == c && s[1..] == Join(qs, sep);
      forall i | 0 <= i < |qs| - 1
        ensures NoneBefore(qs[i] + sep, sep, |qs[i]|)
      {
        if i == 0 {
          assert ps[0] + sep == [c] + (q0 + sep);
          NoneBeforeTail(c, q0 + sep, sep, |q0|);
        } else {
          assert qs[i] == ps[i];
        }
      }
      if |qs| == 1 {
        NoneBeforeTail(c, q0, sep, |q0|);
      } else {
        assert qs[|qs| - 1] == ps[|ps| - 1];
      }
      SplitUnique(qs, s[1..], sep);
    }
  }

  // ---------------------------------------------------------------------------
  // Counting pieces, and split(sep, 1)
  // ---------------------------------------------------------------------------

  /** Occurrences in a suffix are occurrences in the whole string. */
  lemma {:induction false} OccurrencesSuffix(s: string, sep: string, k: nat)
    requires |sep| > 0 && k <= |s|
    ensures Occurrences(s[k..], sep) <= Occurrences(s, sep)
    decreases k
  {
    if k > 0 {
      OccurrencesSuffix(s[1..], sep, k - 1);
      assert s[1..][k - 1..] == s[k..];
    }
  }

  /** Every cut is made at an occurrence, so k cuts need at least k occurrences. */
  lemma {:induction false} SplitCountBound(s: string, sep: string)
    requires |sep| > 0
    ensures |Split(s, sep)| <= Occurrences(s, sep) + 1
    decreases |s|
  {
    if |s| < |sep| {
    } else if s[..|sep|] == sep {
      SplitCountBound(s[|sep|..], sep);
      OccurrencesSuffix(s[1..], sep, |sep| - 1);
      assert s[1..][|sep| - 1..] == s[|sep|..];
    } else {
      SplitCountBound(s[1..], sep);
    }
  }

  /** What `s.split(sep, 1)` must look like: `s` itself with no occurrence,
      or the text before and after the leftmost occurrence. */
  predicate OnceShaped(r: seq<string>, s: string, sep: string) {
    && (|r| == 1 ==> r[0] == s && NoneBefore(s, sep, |s|))
    && (|r| == 2 ==> s == r[0] + sep + r[1] && NoneBefore(r[0] + sep, sep, |r[0]|))
  }

  /** No cut at the start: the first character joins the text before the
      cut, or the whole string when there is no cut. */
  lemma OnceShapedCharHead(c: char, r: seq<string>, t: string, sep: string)
    requires |sep| > 0 && (|r| == 1 || |r| == 2) && OnceShaped(r, t, sep)
    requires !OccursAt([c] + t, sep, 0)
    ensures OnceShaped(if |r| == 1 then [[c] + t] else [[c] + r[0], r[1]], [c] + t, sep)
  {
    if |r| == 1 {
      NoneBeforeCons(c, t, sep, |t|);
    } else {
      var s := [c] + t;
      var u := [c] + r[0] + sep;
      assert s == u + r[1];
      OccursAtZeroPrefix(u, s, sep);
      assert [c] + (r[0] + sep) == u;
      NoneBeforeCons(c, r[0] + sep, sep, |r[0]|);
    }
  }

  /** The shape of `s.split(sep, 1)`: `s` itself when `sep` does not occur,
      otherwise the text before and after the leftmost occurrence. */
  lemma {:induction false} SplitOnceShape(s: string, sep: string)
    requires |sep| > 0
    ensures OnceShaped(SplitOnce(s, sep), s, sep)
    decreases |s|
  {
    if |s| < |sep| {
    } else if s[..|sep|] == sep {
      assert s == s[..|sep|] + s[|sep|..];
    } else {
      var t := s[1..];
      SplitOnceShape(t, sep);
      assert s == [s[0]] + t;
      assert !OccursAt(s, sep, 0);
      OnceShapedCharHead(s[0], SplitOnce(t, sep), t, sep);
    }
  }

  /** A string of the form `a + sep + b` contains `sep`. */
  lemma OccursAfterPrefix(a: string, sep: string, b: string)
    requires |sep| > 0
    ensures OccursAt(a + sep + b, sep, |a|)
    ensures !NoneBefore(a + sep + b, sep, |a + sep + b|)
  {
    assert (a + sep + b)[|a|..|a| + |sep|] == sep;
    assert OccursAt(a + sep + b, sep, |a|);
  }

  /** What Python promises about `s.split(sep, 1)`: one piece, `s` itself,
      exactly when `sep` does not occur; otherwise the text before and after
      the leftmost occurrence. */
  lemma SplitOnceSpec(s: string, sep: string)
    requires |sep| > 0
    ensures var r := SplitOnce(s, sep);
      && (|r| == 1 <==> NoneBefore(s, sep, |s|))
      && (|r| == 1 ==> r[0] == s)
      && (|r| == 2 ==> s == r[0] + sep + r[1] && NoneBefore(r[0] + sep, sep, |r[0]|))
  {
    var r := SplitOnce(s, sep);
    SplitOnceShape(s, sep);
    if |r| == 2 {
      OccursAfterPrefix(r[0], sep, r[1]);
    }
  }

  /** Occurrences that fit inside a prefix are the same in the prefix and in the whole. */
  lemma PrefixOccurrences(u: string, s: string, sep: string)
    requires u <= s
    ensures forall j :: 0 <= j && j + |sep| <= |u| ==> (OccursAt(u, sep, j) <==> OccursAt(s, sep, j))
  {
    forall j | 0 <= j && j + |sep| <= |u|
      ensures OccursAt(u, sep, j) <==> OccursAt(s, sep, j)
    {
      assert s[j..j + |sep|] == u[j..j + |sep|];
    }
  }

  /** Two ways of naming the leftmost occurrence of `sep` agree. */
  lemma FirstCutUnique(s: string, sep: string, a: string, b: string)
    requires a + sep <= s && NoneBefore(a + sep, sep, |a|)
    requires b + sep <= s && NoneBefore(b + sep, sep, |b|)
    ensures a == b
  {
    PrefixOccurrences(a + sep, s, sep);
    PrefixOccurrences(b + sep, s, sep);
    assert (a + sep)[|a|..|a| + |sep|] == sep;
    assert (b + sep)[|b|..|b| + |sep|] == sep;
    assert OccursAt(s, sep, |a|) && OccursAt(s, sep, |b|);
    assert |a| == |b|;
    assert a == s[..|a|] == b;
  }

  /** `s.split(sep, 1)` is the first piece of `s.split(sep)` followed by the
      remaining pieces joined back together. */
  lemma SplitOnceAgreesWithSplit(s: string, sep: string)
    requires |sep| > 0
    ensures var ps := Split(s, sep);
      SplitOnce(s, sep) == if |ps| == 1 then [s] else [ps[0], Join(ps[1..], sep)]
  {
    var ps := Split(s, sep);
    var r := SplitOnce(s, sep);
    SplitIsSplitOf(s, sep);
    SplitOnceSpec(s, sep);
    if |ps| >= 2 {
      JoinUnfold(ps, sep);
      OccursAfterPrefix(ps[0], sep, Join(ps[1..], sep));
      assert |r| == 2;
      assert r[0] + sep <= s;
      assert ps[0] + sep <= s;
      FirstCutUnique(s, sep, r[0], ps[0]);
      assert r[0] + sep + r[1] == ps[0] + sep + Join(ps[1..], sep);
      assert r[1] == Join(ps[1..], sep);
    }
  }

  /** For a one-character separator, "no occurrence before k" means the
      character is absent from the first k characters. */
  lemma NoneBeforeChar(s: string, c: char, k: int)
    requires 0 <= k <= |s|
    ensures NoneBefore(s, [c], k) <==> c !in s[..k]
  {
    if !NoneBefore(s, [c], k) {
      var j :| 0 <= j < k && OccursAt(s, [c], j);
      assert s[j..j + 1] == [c];
      assert s[..k][j] == c;
    }
    if c in s[..k] {
      var j :| 0 <= j < k && s[..k][j] == c;
      assert s[j..j + 1] == [c];
      assert OccursAt(s, [c], j);
    }
  }

  /** `s.split(c, 1)` for one character `c`: two parts, around the first `c`,
      exactly when `c` occurs in `s`. */
  lemma SplitOnceChar(s: string, c: char)
    ensures var parts := SplitOnce(s, [c]);
      && (|parts| == 2 <==> c in s)
      && (|parts| == 1 ==> parts[0] == s)
      && (|parts| == 2 ==> s == parts[0] + [c] + parts[1] && c !in parts[0])
  {
    SplitOnceSpec(s, [c]);
    NoneBeforeChar(s, c, |s|);
    assert s[..|s|] == s;
    var parts := SplitOnce(s, [c]);
    if |parts| == 2 {
      NoneBeforeChar(parts[0] + [c], c, |parts[0]|);
      assert (parts[0] + [c])[..|parts[0]|] == parts[0];
    }
  }

  /** The first piece of `s.split(c)` for one character `c` is `s` up to its
      first `c`, or all of `s` when there is none. */
  lemma SplitFirstPieceChar(s: string, c: char)
    ensures var p := Split(s, [c])[0];
      p <= s && c !in p && (p == s || s[|p|] == c)
  {
    var ps := Split(s, [c]);
    SplitIsSplitOf(s, [c]);
    if |ps| == 1 {
      NoneBeforeChar(s, c, |s|);
      assert s[..|s|] == s;
    } else {
      JoinFirstPrefix(ps, [c]);
      NoneBeforeChar(ps[0] + [c], c, |ps[0]|);
      assert (ps[0] + [c])[..|ps[0]|] == ps[0];
      assert s[|ps[0]|] == (ps[0] + [c])[|ps[0]|];
    }
  }

  // ---------------------------------------------------------------------------
  // Pieces hold no separator
  // ---------------------------------------------------------------------------

  /** `s` holds no occurrence of `sep`. */
  predicate Free(s: string, sep: string) {
    NoneBefore(s, sep, |s|)
  }

  /** `r` sits inside `s` starting at index `i`. */
  predicate InfixAt(r: string, s: string, i: int) {
    0 <= i && i + |r| <= |s| && r == s[i..i + |r|]
  }

  /** A position of `r` that starts no occurrence in the enclosing `s` starts
      none in `r` either. */
  lemma NoOccurrenceInInfix(r: string, s: string, sep: string, i: int, j: int)
    requires InfixAt(r, s, i) && 0 <= j && !OccursAt(s, sep, i + j)
    ensures !OccursAt(r, sep, j)
  {
    if j + |sep| <= |r| {
      var a, b := r[j..j + |sep|], s[i + j..i + j + |sep|];
      forall m | 0 <= m < |a|
        ensures a[m] == b[m]
      {
        assert a[m] == r[j + m] == s[i..i + |r|][j + m];
      }
      assert a == b;
    }
  }

  /** No occurrence starts at a character other than the separator's first. */
  lemma NotOccursAtChar(s: string, sep: string, j: int)
    requires |sep| > 0 && 0 <= j < |s| && s[j] != sep[0]
    ensures !OccursAt(s, sep, j)
  {
    if j + |sep| <= |s| {
      assert s[j..j + |sep|][0] == s[j];
    }
  }

  /** Text inside a string free of `sep` is free of `sep`. */
  lemma FreeInfix(r: string, s: string, sep: string, i: int)
    requires InfixAt(r, s, i) && Free(s, sep)
    ensures Free(r, sep)
  {
    forall j | 0 <= j < |r|
      ensures !OccursAt(r, sep, j)
    {
      NoOccurrenceInInfix(r, s, sep, i, j);
    }
  }

  /** Every piece of a join sits inside the joined string. */
  lemma {:induction false} JoinPieceInfix(ps: seq<string>, sep: string, k: int)
    requires 0 <= k < |ps|
    ensures exists i :: InfixAt(ps[k], Join(ps, sep), i)
    decreases |ps|
  {
    if k == 0 {
      JoinFirstPrefix(ps, sep);
      assert InfixAt(ps[0], Join(ps, sep), 0);
    } else {
      JoinUnfold(ps, sep);
      JoinPieceInfix(ps[1..], sep, k - 1);
      var i :| InfixAt(ps[1..][k - 1], Join(ps[1..], sep), i);
      assert ps[1..][k - 1] == ps[k];
      InfixShift(ps[k], Join(ps[1..], sep), i, ps[0] + sep);
      assert Join(ps, sep) == (ps[0] + sep) + Join(ps[1..], sep);
    }
  }

  /** Text in front moves an infix right by its length. */
  lemma InfixShift(r: string, t: string, i: int, a: string)
    requires InfixAt(r, t, i)
    ensures InfixAt(r, a + t, |a| + i)
  {
    assert (a + t)[|a| + i..|a| + i + |r|] == t[i..i + |r|];
  }

  /** Every piece of `s.split(sep)` sits inside `s` and holds no `sep`: text
      on both sides of an occurrence always ends up in different pieces. */
  lemma SplitPieceFree(s: string, sep: string, k: int)
    requires |sep| > 0 && 0 <= k < |Split(s, sep)|
    ensures Free(Split(s, sep)[k], sep)
    ensures exists i :: InfixAt(Split(s, sep)[k], s, i)
  {
    var ps := Split(s, sep);
    SplitIsSplitOf(s, sep);
    JoinPieceInfix(ps, sep, k);
    if k < |ps| - 1 {
      PrefixOccurrences(ps[k], ps[k] + sep, sep);
    }
  }

  // ---------------------------------------------------------------------------
  // Splitting strings whose pieces cannot start a separator
  // ---------------------------------------------------------------------------

  /** A string without the separator's first character holds no separator. */
  lemma NoHeadCharFree(s: string, sep: string)
    requires |sep| > 0 && sep[0] !in s
    ensures Free(s, sep)
  {
    forall j | 0 <= j < |s|
      ensures !OccursAt(s, sep, j)
    {
      NotOccursAtChar(s, sep, j);
    }
  }

  /** When no piece holds the separator's first character, the pieces that
      join to `s` are exactly the pieces of `s.split(sep)`. */
  lemma SplitWhenHeadAbsent(ps: seq<string>, s: string, sep: string)
    requires |sep| > 0 && |ps| >= 1 && Join(ps, sep) == s
    requires forall i :: 0 <= i < |ps| ==> sep[0] !in ps[i]
    ensures Split(s, sep) == ps
  {
    forall i | 0 <= i < |ps| - 1
      ensures NoneBefore(ps[i] + sep, sep, |ps[i]|)
    {
      forall j | 0 <= j < |ps[i]|
        ensures !OccursAt(ps[i] + sep, sep, j)
      {
        assert (ps[i] + sep)[j] == ps[i][j];
        NotOccursAtChar(ps[i] + sep, sep, j);
      }
    }
    NoHeadCharFree(ps[|ps| - 1], sep);
    SplitUnique(ps, s, sep);
  }
}
