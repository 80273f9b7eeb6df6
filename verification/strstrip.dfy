/**
 Python's `str.strip()` and `str.strip(chars)`: remove, from both ends of a
 string, every character that belongs to a set, and nothing else.
 */
module StrStrip {

  /** The characters for which Python's `str.isspace` holds; `str.strip()`
      without an argument removes exactly these. */
  const Whitespace: set<char> := {
    '\t', '\n', '\U{B}', '\U{C}', '\r', '\U{1C}', '\U{1D}', '\U{1E}', '\U{1F}', ' ',
    '\U{85}', '\U{A0}', '\U{1680}',
    '\U{2000}', '\U{2001}', '\U{2002}', '\U{2003}', '\U{2004}', '\U{2005}',
    '\U{2006}', '\U{2007}', '\U{2008}', '\U{2009}', '\U{200A}',
    '\U{2028}', '\U{2029}', '\U{202F}', '\U{205F}', '\U{3000}'
  }

  /** Every character of `s` between indices `lo` and `hi` is in `cs`. */
  predicate AllIn(s: string, lo: int, hi: int, cs: set<char>)
    requires 0 <= lo && hi <= |s|
  {
    forall k :: lo <= k < hi ==> s[k] in cs
  }

  /** `r` is `s` from index `i` on, with the `i` characters before it and
      everything after it drawn from `cs`. */
  predicate TrimmedAt(r: string, s: string, cs: set<char>, i: int) {
    && 0 <= i && i + |r| <= |s|
    && r == s[i..i + |r|]
    && AllIn(s, 0, i, cs)
    && AllIn(s, i + |r|, |s|, cs)
  }

  /** `r` is what is left of `s` once a prefix and a suffix made only of
      characters in `cs` are cut off. */
  ghost predicate TrimmedOf(r: string, s: string, cs: set<char>) {
    exists i :: TrimmedAt(r, s, cs, i)
  }

  /** Neither end of `r` is a character of `cs`. */
  predicate EndsClear(r: string, cs: set<char>) {
    r == [] || (r[0] !in cs && r[|r| - 1] !in cs)
  }

  /** Scanning right from `i`, the first index whose character is not in
      `cs` (or `|s|` when there is none). */
  function LeftCut(s: string, cs: set<char>, i: nat): (r: nat)
    requires i <= |s|
    ensures i <= r <= |s| && AllIn(s, i, r, cs)
    ensures r == |s| || s[r] !in cs
    decreases |s| - i
  {
    if i < |s| && s[i] in cs then LeftCut(s, cs, i + 1) else i
  }

  /** Scanning left from `j` but not past `lo`, the first index after which
      the character is not in `cs` (or `lo` when there is none). */
  function RightCut(s: string, cs: set<char>, lo: nat, j: nat): (r: nat)
    requires lo <= j <= |s|
    ensures lo <= r <= j && AllIn(s, r, j, cs)
    ensures r == lo || s[r - 1] !in cs
    decreases j
  {
    if lo < j && s[j - 1] in cs then RightCut(s, cs, lo, j - 1) else j
  }

  /** `s.strip(chars)`, with `cs` the set of characters of `chars`: the longest
      run of `cs` characters is removed at each end. */
  function StripChars(s: string, cs: set<char>): (r: string)
    ensures TrimmedOf(r, s, cs)
    ensures EndsClear(r, cs)
  {
    var i := LeftCut(s, cs, 0);
    var j := RightCut(s, cs, i, |s|);
    assert TrimmedAt(s[i..j], s, cs, i);
    s[i..j]
  }

  /** `s.strip()`. */
  function Strip(s: string): (r: string)
    ensures TrimmedOf(r, s, Whitespace)
    ensures EndsClear(r, Whitespace)
  {
    StripChars(s, Whitespace)
  }

  /** A trimming is empty exactly when every character is one to trim. */
  lemma TrimmedEmpty(r: string, s: string, cs: set<char>, i: int)
    requires TrimmedAt(r, s, cs, i) && EndsClear(r, cs)
    ensures r == [] <==> AllIn(s, 0, |s|, cs)
  {
    if r != [] {
      assert r[0] == s[i];
    }
  }

  /** Stripping leaves nothing exactly when every character is one to strip. */
  lemma StripCharsEmpty(s: string, cs: set<char>)
    ensures StripChars(s, cs) == [] <==> AllIn(s, 0, |s|, cs)
  {
    var r := StripChars(s, cs);
    var i :| TrimmedAt(r, s, cs, i);
    TrimmedEmpty(r, s, cs, i);
  }

  /** Two non-empty trimmings with clear ends start at the same index. */
  lemma TrimmedSameStart(r: string, q: string, s: string, cs: set<char>, i: int, j: int)
    requires TrimmedAt(r, s, cs, i) && EndsClear(r, cs) && r != []
    requires TrimmedAt(q, s, cs, j) && EndsClear(q, cs) && q != []
    ensures i == j
  {
    assert r[0] == s[i] && q[0] == s[j];
  }

  /** Two non-empty trimmings with clear ends end at the same index. */
  lemma TrimmedSameEnd(r: string, q: string, s: string, cs: set<char>, i: int, j: int)
    requires TrimmedAt(r, s, cs, i) && EndsClear(r, cs) && r != []
    requires TrimmedAt(q, s, cs, j) && EndsClear(q, cs) && q != []
    ensures i + |r| == j + |q|
  {
    assert r[|r| - 1] == s[i + |r| - 1] && q[|q| - 1] == s[j + |q| - 1];
  }

  /** Two trimmings with clear ends are equal. */
  lemma TrimmedUnique(r: string, q: string, s: string, cs: set<char>, i: int, j: int)
    requires TrimmedAt(r, s, cs, i) && EndsClear(r, cs)
    requires TrimmedAt(q, s, cs, j) && EndsClear(q, cs)
    ensures r == q
  {
    TrimmedEmpty(r, s, cs, i);
    TrimmedEmpty(q, s, cs, j);
    if r != [] && q != [] {
      TrimmedSameStart(r, q, s, cs, i, j);
      TrimmedSameEnd(r, q, s, cs, i, j);
    }
  }

  /** `StripChars` is the only trimming of `s` whose ends are clear of `cs`. */
  lemma StripCharsUnique(r: string, s: string, cs: set<char>)
    requires TrimmedOf(r, s, cs) && EndsClear(r, cs)
    ensures r == StripChars(s, cs)
  {
    var i :| TrimmedAt(r, s, cs, i);
    var q := StripChars(s, cs);
    var j :| TrimmedAt(q, s, cs, j);
    TrimmedUnique(r, q, s, cs, i, j);
  }

  /** A string whose ends are already clear is left as it is. */
  lemma StripCharsClear(s: string, cs: set<char>)
    requires EndsClear(s, cs)
    ensures StripChars(s, cs) == s
  {
    assert TrimmedAt(s, s, cs, 0);
    StripCharsUnique(s, s, cs);
  }

  /** Stripping twice is stripping once. */
  lemma StripCharsIdempotent(s: string, cs: set<char>)
    ensures StripChars(StripChars(s, cs), cs) == StripChars(s, cs)
  {
    StripCharsClear(StripChars(s, cs), cs);
  }

  /** Stripping first the characters of `cs1` and then those of `cs2` trims
      only characters of `cs1 + cs2`. */
  lemma TrimmedOfCompose(r: string, m: string, s: string, cs1: set<char>, cs2: set<char>)
    requires TrimmedOf(m, s, cs1) && TrimmedOf(r, m, cs2)
    ensures TrimmedOf(r, s, cs1 + cs2)
  {
    var i :| TrimmedAt(m, s, cs1, i);
    var j :| TrimmedAt(r, m, cs2, j);
    var n := i + j;
    assert forall k :: 0 <= k < |m| ==> m[k] == s[i + k];
    assert forall k :: 0 <= k < |r| ==> r[k] == m[j + k];
    assert r == s[n..n + |r|];
    assert AllIn(s, 0, n, cs1 + cs2) by {
      forall k | 0 <= k < n
        ensures s[k] in cs1 + cs2
      {
        if i <= k {
          assert s[k] == m[k - i];
        }
      }
    }
    assert AllIn(s, n + |r|, |s|, cs1 + cs2) by {
      forall k | n + |r| <= k < |s|
        ensures s[k] in cs1 + cs2
      {
        if k < i + |m| {
          assert s[k] == m[k - i];
        }
      }
    }
    assert TrimmedAt(r, s, cs1 + cs2, n);
  }

  /** Trimming only deletes characters. */
  lemma TrimmedSubMultiset(r: string, s: string, cs: set<char>)
    requires TrimmedOf(r, s, cs)
    ensures multiset(r) <= multiset(s)
  {
    var i :| TrimmedAt(r, s, cs, i);
    assert s == s[..i] + r + s[i + |r|..];
  }

  /** Trimming keeps every occurrence of a character it may not remove. */
  lemma TrimmedKeeps(r: string, s: string, cs: set<char>, c: char)
    requires TrimmedOf(r, s, cs) && c !in cs
    ensures multiset(r)[c] == multiset(s)[c]
  {
    var i :| TrimmedAt(r, s, cs, i);
    var pre, post := s[..i], s[i + |r|..];
    assert s == pre + r + post;
    assert c !in pre by {
      assert forall k :: 0 <= k < |pre| ==> pre[k] == s[k];
    }
    assert c !in post by {
      assert forall k :: 0 <= k < |post| ==> post[k] == s[i + |r| + k];
    }
  }

  /** Trimming keeps the count of every character outside the set. */
  lemma TrimmedKeepsAll(r: string, s: string, cs: set<char>)
    requires TrimmedOf(r, s, cs)
    ensures forall c :: c !in cs ==> multiset(r)[c] == multiset(s)[c]
  {
    forall c | c !in cs
      ensures multiset(r)[c] == multiset(s)[c]
    {
      TrimmedKeeps(r, s, cs, c);
    }
  }
}
