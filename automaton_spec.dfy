/** Value-level specification of the Aho-Corasick automaton over a set of
    trie paths `P` (the strings spelled from the root) and a keyword set `K`:
    the longest suffix that is a trie path (what a failure link and the
    matcher's current node stand for), the output set each node ends up
    with, and the count the matcher accumulates. */
module AutomatonSpec {
  import opened Strings

  /** The prefixes of `w` of length at most `j`. */
  ghost function PrefixesUpTo(w: String, j: nat): set<String> {
    set m | 0 <= m <= j && m <= |w| :: w[..m]
  }

  lemma PrefixesUpToZero(w: String)
    ensures PrefixesUpTo(w, 0) == {[]}
  {
    assert w[..0] == [];
  }

  lemma PrefixesUpToStep(w: String, j: nat)
    requires j < |w|
    ensures PrefixesUpTo(w, j + 1) == PrefixesUpTo(w, j) + {w[..j + 1]}
  {
  }

  /** All prefixes of one word, the empty one included. */
  ghost function PrefixesOf(w: String): set<String> {
    PrefixesUpTo(w, |w|)
  }

  /** All prefixes of all keywords: the paths a trie built from `K` spells. */
  ghost function Prefixes(K: set<String>): set<String> {
    set w, m | w in K && 0 <= m <= |w| :: w[..m]
  }

  lemma PrefixesAdd(K: set<String>, w: String)
    ensures Prefixes(K + {w}) == Prefixes(K) + PrefixesOf(w)
  {
    forall x | x in Prefixes(K + {w}) ensures x in Prefixes(K) + PrefixesOf(w) {
      var v, m :| v in K + {w} && 0 <= m <= |v| && x == v[..m];
      if v == w { assert x in PrefixesOf(w); } else { assert x in Prefixes(K); }
    }
    forall x | x in PrefixesOf(w) ensures x in Prefixes(K + {w}) {
      var m :| 0 <= m <= |w| && x == w[..m];
    }
  }

  ghost predicate PrefixClosed(P: set<String>) {
    forall x, m :: x in P && 0 <= m <= |x| ==> x[..m] in P
  }

  /** The longest suffix of `s` that lies in `P`: `s` itself when it is in
      `P`, otherwise the longest one of `s` without its first character.
      `LongestSuffixIsLongest` proves that it is a suffix and the longest
      one; those facts are kept out of this contract on purpose, since a
      suffix fact at every use makes the solver's sequence reasoning
      explode in the callers that hold many of them. */
  function LongestSuffixIn(P: set<String>, s: String): (r: String)
    requires [] in P
    ensures r in P && |r| <= |s|
    decreases |s|
  {
    if s in P then s else LongestSuffixIn(P, s[1..])
  }

  /** `LongestSuffixIn(P, s)` is a suffix of `s`. */
  lemma {:induction false} LongestSuffixIsSuffix(P: set<String>, s: String)
    requires [] in P
    ensures IsSuffix(LongestSuffixIn(P, s), s)
    decreases |s|
  {
    if s !in P {
      LongestSuffixIsSuffix(P, s[1..]);
      TailIsSuffix(s);
      SuffixTrans(LongestSuffixIn(P, s[1..]), s[1..], s);
    }
  }

  /** No suffix of `s` in `P` is longer than `LongestSuffixIn(P, s)`. */
  lemma {:induction false} LongestSuffixAtLeast(P: set<String>, s: String, u: String)
    requires [] in P
    requires u in P && IsSuffix(u, s)
    ensures |u| <= |LongestSuffixIn(P, s)|
    decreases |s|
  {
    if s !in P {
      assert u != s;
      SuffixOfTail(u, s);
      LongestSuffixAtLeast(P, s[1..], u);
    }
  }

  /** `LongestSuffixIn(P, s)` is a suffix of `s`, and no suffix of `s` in
      `P` is longer. */
  lemma LongestSuffixIsLongest(P: set<String>, s: String)
    requires [] in P
    ensures IsSuffix(LongestSuffixIn(P, s), s)
    ensures forall u {:trigger IsSuffix(u, s)} :: u in P && IsSuffix(u, s) ==> |u| <= |LongestSuffixIn(P, s)|
  {
    LongestSuffixIsSuffix(P, s);
    forall u | u in P && IsSuffix(u, s) ensures |u| <= |LongestSuffixIn(P, s)| {
      LongestSuffixAtLeast(P, s, u);
    }
  }

  lemma SameLengthSuffixes(a: String, b: String, t: String)
    requires IsSuffix(a, t) && IsSuffix(b, t) && |a| == |b|
    ensures a == b
  {
  }

  /** The matcher's step: the longest trie-path suffix of `t + [c]` only
      depends on the longest trie-path suffix of `t`. */
  lemma LongestStep(P: set<String>, t: String, c: char)
    requires [] in P && PrefixClosed(P)
    ensures LongestSuffixIn(P, t + [c])
         == LongestSuffixIn(P, LongestSuffixIn(P, t) + [c])
  {
    var y := LongestSuffixIn(P, t);
    var r1 := LongestSuffixIn(P, t + [c]);
    var r2 := LongestSuffixIn(P, y + [c]);
    LongestSuffixIsLongest(P, t);
    LongestSuffixIsLongest(P, t + [c]);
    LongestSuffixIsLongest(P, y + [c]);
    SnocOfSuffix(y, t, c);
    SuffixTrans(r2, y + [c], t + [c]);
    assert |r2| <= |r1|;
    if r1 != [] {
      SuffixOfSnoc(r1, t, c);
      var r0 := r1[..|r1| - 1];
      assert r0 in P;
      SuffixOfSuffix(r0, y, t);
      SnocOfSuffix(r0, y, c);
      assert |r1| <= |r2|;
    }
    SameLengthSuffixes(r1, r2, t + [c]);
  }

  /** One failure step: when the node for `y` has no edge `c`, the target is
      the one reached from the failure node of `y`. */
  lemma FailStep(P: set<String>, y: String, c: char)
    requires [] in P && PrefixClosed(P)
    requires y != [] && y + [c] !in P
    ensures LongestSuffixIn(P, y + [c])
         == LongestSuffixIn(P, LongestSuffixIn(P, y[1..]) + [c])
  {
    assert (y + [c])[1..] == y[1..] + [c];
    LongestStep(P, y[1..], c);
  }

  /** The failure target of the child by `c` of the node for `x` is found
      from the failure node `y` of `x`; it is never deeper than `x`. */
  lemma ChildFailure(P: set<String>, x: String, c: char, y: String)
    requires [] in P && PrefixClosed(P)
    requires x != [] && y == LongestSuffixIn(P, x[1..])
    ensures LongestSuffixIn(P, y + [c]) == LongestSuffixIn(P, (x + [c])[1..])
    ensures |LongestSuffixIn(P, y + [c])| <= |x|
  {
    assert (x + [c])[1..] == x[1..] + [c];
    LongestStep(P, x[1..], c);
  }

  /** The keyword recorded at the node for `x` itself by the trie builder. */
  function LocalOutput(K: set<String>, x: String): set<String> {
    if x in K then {x} else {}
  }

  /** The output set the failure-link pass leaves at the node for `x`: the
      root and its direct children keep their own keyword only, every deeper
      node adds the output of its failure node. */
  function Outputs(K: set<String>, P: set<String>, x: String): (r: set<String>)
    requires [] in P
    ensures r <= K
    ensures LocalOutput(K, x) <= r
    decreases |x|
  {
    if |x| <= 1 then LocalOutput(K, x)
    else LocalOutput(K, x) + Outputs(K, P, LongestSuffixIn(P, x[1..]))
  }

  /** A non-empty keyword is reported at `x` exactly when it is a suffix of `x`. */
  lemma {:induction false} OutputsOfKeyword(K: set<String>, P: set<String>, x: String, k: String)
    requires [] in P && K <= P
    requires k != []
    ensures k in Outputs(K, P, x) <==> k in K && IsSuffix(k, x)
    decreases |x|
  {
    if |x| <= 1 {
      if k in K && IsSuffix(k, x) { assert x[|x| - |k|..] == x; }
    } else {
      var y := LongestSuffixIn(P, x[1..]);
      LongestSuffixIsLongest(P, x[1..]);
      OutputsOfKeyword(K, P, y, k);
      TailIsSuffix(x);
      if k in Outputs(K, P, y) {
        SuffixTrans(y, x[1..], x);
        SuffixTrans(k, y, x);
      }
      if k in K && IsSuffix(k, x) && k != x {
        SuffixOfTail(k, x);
        SuffixOfSuffix(k, y, x[1..]);
      }
    }
  }

  /** At depth two or more, the empty keyword reaches a node through its
      failure node exactly when that failure node reports it. */
  lemma EmptyKeywordViaFailure(K: set<String>, P: set<String>, x: String)
    requires [] in P && |x| >= 2
    ensures [] in Outputs(K, P, x) <==> [] in Outputs(K, P, LongestSuffixIn(P, x[1..]))
  {
    assert [] !in LocalOutput(K, x);
  }

  /** The longest trie-path suffix of `x[1..]` ends with the last
      character of `x`; it is empty only when that character on its own is
      not a trie path, and it is that one-character path when it has length
      one. */
  lemma LastCharacterPath(P: set<String>, x: String)
    requires [] in P && |x| >= 2
    ensures var y := LongestSuffixIn(P, x[1..]);
      && (y == [] ==> [x[|x| - 1]] !in P)
      && (|y| == 1 ==> y == [x[|x| - 1]])
      && (y != [] ==> y[|y| - 1] == x[|x| - 1])
  {
    var y := LongestSuffixIn(P, x[1..]);
    var last := [x[|x| - 1]];
    LongestSuffixIsSuffix(P, x[1..]);
    assert IsSuffix(last, x[1..]);
    if last in P {
      LongestSuffixAtLeast(P, x[1..], last);
    }
    if y != [] {
      assert y[|y| - 1] == x[1..][|x[1..]| - 1];
    }
  }

  /** The empty keyword is reported at the root, and at a non-root node only
      when the path has two or more characters and its last character alone
      is not a trie path. */
  lemma {:induction false} OutputsOfEmptyKeyword(K: set<String>, P: set<String>, x: String)
    requires [] in P
    ensures [] in Outputs(K, P, x)
        <==> [] in K && (x == [] || (|x| >= 2 && [x[|x| - 1]] !in P))
    decreases |x|
  {
    if |x| >= 2 {
      var y := LongestSuffixIn(P, x[1..]);
      EmptyKeywordViaFailure(K, P, x);
      LastCharacterPath(P, x);
      if |y| >= 2 {
        OutputsOfEmptyKeyword(K, P, y);
      }
    }
  }

  /** What the matcher adds up for keyword `k` over text `t`: one for every
      prefix of `t` whose longest trie-path suffix is not the root and
      reports `k`. */
  function ScanCount(K: set<String>, P: set<String>, t: String, k: String): nat
    requires [] in P
    decreases |t|
  {
    if t == [] then 0
    else
      var s := LongestSuffixIn(P, t);
      ScanCount(K, P, t[..|t| - 1], k) + (if s != [] && k in Outputs(K, P, s) then 1 else 0)
  }

  /** Counts never decrease as more text is read. */
  lemma {:induction false} ScanCountMonotone(K: set<String>, P: set<String>, t: String, u: String, k: String)
    requires [] in P
    requires t <= u
    ensures ScanCount(K, P, t, k) <= ScanCount(K, P, u, k)
    decreases |u|
  {
    if |t| < |u| {
      assert t <= u[..|u| - 1];
      ScanCountMonotone(K, P, t, u[..|u| - 1], k);
    } else {
      assert t == u;
    }
  }

  /** A string that is not a keyword is never counted. */
  lemma {:induction false} ScanCountOfNonKeyword(K: set<String>, P: set<String>, t: String, k: String)
    requires [] in P
    requires k !in K
    ensures ScanCount(K, P, t, k) == 0
    decreases |t|
  {
    if t != [] {
      ScanCountOfNonKeyword(K, P, t[..|t| - 1], k);
    }
  }

  /** After reading `t`, the matcher reports a non-empty keyword exactly
      when the keyword is a suffix of `t`. */
  lemma ReportsKeyword(K: set<String>, P: set<String>, t: String, k: String)
    requires [] in P && K <= P
    requires k in K && k != []
    ensures var s := LongestSuffixIn(P, t);
      (s != [] && k in Outputs(K, P, s)) <==> IsSuffix(k, t)
  {
    var s := LongestSuffixIn(P, t);
    LongestSuffixIsLongest(P, t);
    OutputsOfKeyword(K, P, s, k);
    if IsSuffix(k, s) {
      SuffixTrans(k, s, t);
    }
    if IsSuffix(k, t) {
      SuffixOfSuffix(k, s, t);
    }
  }

  /** The matcher's count of a non-empty keyword is its number of
      overlapping occurrences. */
  lemma {:induction false} ScanCountOfKeyword(K: set<String>, P: set<String>, t: String, k: String)
    requires [] in P && K <= P
    requires k in K && k != []
    ensures ScanCount(K, P, t, k) == OverlapCount(t, k)
    decreases |t|
  {
    if t != [] {
      var t0, c := t[..|t| - 1], t[|t| - 1];
      assert t == t0 + [c];
      ScanCountOfKeyword(K, P, t0, k);
      OverlapCountSnoc(t0, c, k);
      ReportsKeyword(K, P, t, k);
    }
  }

  /** The count the matcher reaches for the empty keyword: the characters
      after which a non-empty trie path ends although the character on its
      own is not a trie path. */
  function EmptyKeywordCount(P: set<String>, t: String): nat
    requires [] in P
    decreases |t|
  {
    if t == [] then 0
    else
      EmptyKeywordCount(P, t[..|t| - 1])
      + (if LongestSuffixIn(P, t) != [] && [t[|t| - 1]] !in P then 1 else 0)
  }

  /** One step of the matcher counts the empty keyword exactly when the
      character just read ends a non-empty trie path but is not one itself. */
  lemma EmptyKeywordStep(K: set<String>, P: set<String>, t: String)
    requires [] in P && [] in K && t != []
    ensures var s := LongestSuffixIn(P, t);
      (s != [] && [] in Outputs(K, P, s)) <==> (s != [] && [t[|t| - 1]] !in P)
  {
    var s := LongestSuffixIn(P, t);
    OutputsOfEmptyKeyword(K, P, s);
    if s != [] {
      LongestSuffixIsSuffix(P, t);
      assert s[|s| - 1] == t[|t| - 1];
      if |s| == 1 {
        assert s == [t[|t| - 1]];
      }
    }
  }

  /** The matcher's count of the empty keyword is `EmptyKeywordCount`. */
  lemma {:induction false} ScanCountOfEmptyKeyword(K: set<String>, P: set<String>, t: String)
    requires [] in P
    requires [] in K
    ensures ScanCount(K, P, t, []) == EmptyKeywordCount(P, t)
    decreases |t|
  {
    if t != [] {
      ScanCountOfEmptyKeyword(K, P, t[..|t| - 1]);
      EmptyKeywordStep(K, P, t);
    }
  }
}
