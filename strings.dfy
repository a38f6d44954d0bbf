/** Strings as sequences of characters, suffixes, and the naive overlapping
    substring counter that the automaton is checked against. */
module Strings {

  type String = seq<char>

  /** `s` is a suffix of `t`. */
  predicate IsSuffix(s: String, t: String) {
    |s| <= |t| && t[|t| - |s|..] == s
  }

  lemma SuffixOfTail(u: String, s: String)
    requires IsSuffix(u, s) && |u| < |s|
    ensures IsSuffix(u, s[1..])
  {
    assert s[1..][|s[1..]| - |u|..] == s[|s| - |u|..];
  }

  lemma TailIsSuffix(s: String)
    requires s != []
    ensures IsSuffix(s[1..], s)
  {
  }

  lemma SuffixTrans(a: String, b: String, c: String)
    requires IsSuffix(a, b) && IsSuffix(b, c)
    ensures IsSuffix(a, c)
  {
    assert c[|c| - |a|..] == c[|c| - |b|..][|b| - |a|..];
  }

  /** Two suffixes of the same string: the shorter is a suffix of the longer. */
  lemma SuffixOfSuffix(a: String, b: String, t: String)
    requires IsSuffix(a, t) && IsSuffix(b, t) && |a| <= |b|
    ensures IsSuffix(a, b)
  {
    assert b[|b| - |a|..] == t[|t| - |b|..][|b| - |a|..];
  }

  /** A non-empty suffix of `t + [c]` is a suffix of `t` followed by `c`. */
  lemma SuffixOfSnoc(u: String, t: String, c: char)
    requires u != [] && IsSuffix(u, t + [c])
    ensures u == u[..|u| - 1] + [c] && IsSuffix(u[..|u| - 1], t)
  {
    var s := t + [c];
    assert u[|u| - 1] == s[|s| - 1] == c;
    assert t[|t| - (|u| - 1)..] == s[|s| - |u|..][..|u| - 1];
  }

  lemma SnocOfSuffix(u: String, t: String, c: char)
    requires IsSuffix(u, t)
    ensures IsSuffix(u + [c], t + [c])
  {
    assert (t + [c])[|t + [c]| - |u + [c]|..] == t[|t| - |u|..] + [c];
  }

  /** Number of start positions at which `k` occurs in `text`, overlaps
      included: a window of width |k| slid one character at a time. */
  function OverlapCount(text: String, k: String): (n: nat)
    ensures n <= if |text| < |k| then 0 else |text| - |k| + 1
    decreases |text|
  {
    if |text| < |k| then 0
    else (if text[..|k|] == k then 1 else 0)
         + (if text == [] then 0 else OverlapCount(text[1..], k))
  }

  /** Counting by start position equals counting by end position: one more
      character adds one occurrence exactly when `k` ends there. */
  lemma {:induction false} OverlapCountSnoc(t: String, c: char, k: String)
    ensures OverlapCount(t + [c], k)
         == OverlapCount(t, k) + (if IsSuffix(k, t + [c]) then 1 else 0)
    decreases |t|
  {
    var s := t + [c];
    if |s| < |k| {
      assert OverlapCount(s, k) == 0 && OverlapCount(t, k) == 0;
      assert !IsSuffix(k, s);
    } else if |t| < |k| {
      assert |s| == |k| && s[..|k|] == s && s[|s| - |k|..] == s;
      assert OverlapCount(s[1..], k) == 0;
      assert OverlapCount(s, k) == (if s == k then 1 else 0);
      assert OverlapCount(t, k) == 0;
    } else if t == [] {
      assert k == [] && s[1..] == [];
      assert IsSuffix(k, s);
      assert OverlapCount(t, k) == 1;
      assert OverlapCount(s, k) == 1 + OverlapCount([], k);
    } else {
      var t' := t[1..];
      assert s[..|k|] == t[..|k|];
      assert s[1..] == t' + [c];
      var head := if t[..|k|] == k then 1 else 0;
      assert OverlapCount(s, k) == head + OverlapCount(t' + [c], k);
      assert OverlapCount(t, k) == head + OverlapCount(t', k);
      OverlapCountSnoc(t', c, k);
      assert IsSuffix(k, s) <==> IsSuffix(k, t' + [c]) by {
        assert s[|s| - |k|..] == (t' + [c])[|t' + [c]| - |k|..];
      }
    }
  }

  /** Overlapping occurrences are all counted: "aa" occurs three times in
      "aaaa". */
  lemma OverlapExampleRepeated()
    ensures OverlapCount("aaaa", "aa") == 3
  {
    assert OverlapCount("a", "aa") == 0;
    assert OverlapCount("aa", "aa") == 1 by { assert "aa"[1..] == "a"; }
    assert OverlapCount("aaa", "aa") == 2 by { assert "aaa"[..2] == "aa" && "aaa"[1..] == "aa"; }
    assert "aaaa"[..2] == "aa" && "aaaa"[1..] == "aaa";
  }

  /** "he", "she" and "hers" each occur once in "ushers". */
  lemma OverlapExampleUshers()
    ensures OverlapCount("ushers", "he") == 1
    ensures OverlapCount("ushers", "she") == 1
    ensures OverlapCount("ushers", "hers") == 1
  {
    var u := "ushers";
    assert u[1..] == "shers" && "shers"[1..] == "hers" && "hers"[1..] == "ers";
    assert "ers"[1..] == "rs" && "rs"[1..] == "s";
    assert OverlapCount("s", "he") == 0;
    assert OverlapCount("rs", "he") == 0 by { assert "rs"[..2][0] != "he"[0]; }
    assert OverlapCount("ers", "he") == 0 by { assert "ers"[..2][0] != "he"[0]; }
    assert OverlapCount("hers", "he") == 1 by { assert "hers"[..2] == "he"; }
    assert OverlapCount("shers", "he") == 1 by { assert "shers"[..2][0] != "he"[0]; }
    assert u[..2][0] != "he"[0];
    assert OverlapCount("rs", "she") == 0;
    assert OverlapCount("ers", "she") == 0 by { assert "ers"[..3][0] != "she"[0]; }
    assert OverlapCount("hers", "she") == 0 by { assert "hers"[..3][0] != "she"[0]; }
    assert OverlapCount("shers", "she") == 1 by { assert "shers"[..3] == "she"; }
    assert u[..3][0] != "she"[0];
    assert OverlapCount("ers", "hers") == 0;
    assert OverlapCount("hers", "hers") == 1 by { assert "hers"[..4] == "hers"; }
    assert OverlapCount("shers", "hers") == 1 by { assert "shers"[..4][0] != "hers"[0]; }
    assert u[..4][0] != "hers"[0];
  }
}
