/**
 Python's `str.replace(old, new)` for a one-character `old`: every occurrence
 of that character, left to right, is replaced by `new`.
 */
module StrReplace {

  /** `s.replace(c, t)`. */
  function Replace(s: string, c: char, t: string): (r: string)
    ensures c !in t ==> c !in r
    ensures forall k :: 0 <= k < |r| ==> r[k] in s || r[k] in t
    decreases |s|
  {
    if |s| == 0 then ""
    else
      (if s[0] == c then t else [s[0]]) + Replace(s[1..], c, t)
  }

  /** Each occurrence of `c` trades one character for the `|t|` of `t`. */
  lemma {:induction false} ReplaceLength(s: string, c: char, t: string)
    ensures |Replace(s, c, t)| == |s| + multiset(s)[c] * (|t| - 1)
    decreases |s|
  {
    if |s| > 0 {
      ReplaceLength(s[1..], c, t);
      var m := multiset(s[1..])[c];
      assert s == [s[0]] + s[1..];
      assert multiset(s)[c] == (if s[0] == c then m + 1 else m);
      MulSucc(m, |t| - 1);
    }
  }

  /** One more occurrence costs one more `k`. */
  lemma MulSucc(m: int, k: int)
    ensures (m + 1) * k == m * k + k
  {
  }

  /** Replacing is done piece by piece: the result for `a + b` is the result
      for `a` followed by the result for `b`. */
  lemma {:induction false} ReplaceConcat(a: string, b: string, c: char, t: string)
    ensures Replace(a + b, c, t) == Replace(a, c, t) + Replace(b, c, t)
    decreases |a|
  {
    if |a| > 0 {
      assert (a + b)[1..] == a[1..] + b;
      ReplaceConcat(a[1..], b, c, t);
    } else {
      assert a + b == b;
    }
  }

  /** Nothing changes when the character does not occur. */
  lemma {:induction false} ReplaceAbsent(s: string, c: char, t: string)
    requires c !in s
    ensures Replace(s, c, t) == s
    decreases |s|
  {
    if |s| > 0 {
      ReplaceAbsent(s[1..], c, t);
    }
  }

  /** Removing a character (`s.replace(c, "")`) deletes all its occurrences
      and keeps every other character, as many times as it occurred. */
  lemma RemoveKeepsOthers(s: string, c: char)
    ensures multiset(Replace(s, c, "")) == multiset(s)[c := 0]
  {
    var r := Replace(s, c, "");
    RemoveCounts(s, c);
    assert forall d :: multiset(r)[d] == multiset(s)[c := 0][d];
  }

  /** The count of every character other than `c` survives removing `c`. */
  lemma {:induction false} RemoveCounts(s: string, c: char)
    ensures forall d :: d != c ==> multiset(Replace(s, c, ""))[d] == multiset(s)[d]
    decreases |s|
  {
    if |s| > 0 {
      var rest := Replace(s[1..], c, "");
      RemoveCounts(s[1..], c);
      assert s == [s[0]] + s[1..];
      if s[0] == c {
        assert Replace(s, c, "") == rest;
      } else {
        assert Replace(s, c, "") == [s[0]] + rest;
      }
    }
  }

  /** Replacing by a single character works position by position. */
  lemma {:induction false} ReplaceByCharPointwise(s: string, c: char, d: char)
    ensures var r := Replace(s, c, [d]);
      |r| == |s| && forall k :: 0 <= k < |s| ==> r[k] == if s[k] == c then d else s[k]
    decreases |s|
  {
    if |s| > 0 {
      ReplaceByCharPointwise(s[1..], c, d);
      var r := Replace(s, c, [d]);
      forall k | 0 <= k < |s|
        ensures r[k] == if s[k] == c then d else s[k]
      {
        if k > 0 {
          assert r[k] == Replace(s[1..], c, [d])[k - 1];
        }
      }
    }
  }
}
