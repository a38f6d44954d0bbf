/** Whole-pipeline scenarios: `count_occurrences` (without its files) on
    small keyword lists and texts, with the counts the automaton must
    produce. */
module Scenarios {
  import opened Strings
  import opened AhoCorasick

  /** "ab" occurs twice in "abab" (at 0 and at 2). */
  lemma OverlapExampleDuplicate()
    ensures OverlapCount("abab", "ab") == 2
  {
    assert "abab"[1..] == "bab" && "bab"[1..] == "ab" && "ab"[1..] == "b";
    assert OverlapCount("b", "ab") == 0;
    assert OverlapCount("ab", "ab") == 1 by { assert "ab"[..2] == "ab"; }
    assert OverlapCount("bab", "ab") == 1 by { assert "bab"[..2][0] != "ab"[0]; }
    assert "abab"[..2] == "ab";
  }

  /** "his" does not occur in "ushers". */
  lemma OverlapExampleAbsent()
    ensures OverlapCount("ushers", "his") == 0
  {
    var u := "ushers";
    assert u[1..] == "shers" && "shers"[1..] == "hers" && "hers"[1..] == "ers";
    assert "ers"[1..] == "rs";
    assert OverlapCount("rs", "his") == 0;
    assert OverlapCount("ers", "his") == 0 by { assert "ers"[..3][0] != "his"[0]; }
    assert OverlapCount("hers", "his") == 0 by { assert "hers"[..3][1] != "his"[1]; }
    assert OverlapCount("shers", "his") == 0 by { assert "shers"[..3][0] != "his"[0]; }
    assert u[..3][0] != "his"[0];
  }

  /** Two count maps keyed by the same queries that agree on each query
      are equal. */
  lemma SameCounts(occ: map<String, nat>, queries: seq<String>, expected: map<String, nat>)
    requires forall k :: k in occ <==> k in queries
    requires forall k :: k in expected <==> k in queries
    requires forall a :: 0 <= a < |queries| ==> occ[queries[a]] == expected[queries[a]]
    ensures occ == expected
  {
    forall k | k in occ ensures occ[k] == expected[k] {
      var a :| 0 <= a < |queries| && queries[a] == k;
    }
  }

  /** The counts `CountOccurrences` promises for the keywords "he",
      "she", "his" and "hers" over "ushers". */
  lemma UshersCounts(queries: seq<String>, occ: map<String, nat>)
    requires queries == ["he", "she", "his", "hers"]
    requires forall k :: k in occ <==> k in queries
    requires forall k :: k in occ && k != [] ==> occ[k] == OverlapCount("ushers", k)
    ensures occ == map["he" := 1, "she" := 1, "his" := 0, "hers" := 1]
  {
    OverlapExampleUshers();
    OverlapExampleAbsent();
    var expected := map["he" := 1, "she" := 1, "his" := 0, "hers" := 1];
    assert forall k :: k in expected <==> k in queries;
    SameCounts(occ, queries, expected);
  }

  /** Suffix sharing: in "ushers", "he" is found through the failure link
      of the node for "she", and "hers" continues from "he". */
  method UshersScenario() returns (occ: map<String, nat>)
    ensures occ == map["he" := 1, "she" := 1, "his" := 0, "hers" := 1]
  {
    var queries: seq<String> := ["he", "she", "his", "hers"];
    occ := CountOccurrences("ushers", queries);
    UshersCounts(queries, occ);
  }

  /** Overlapping occurrences: "aa" in "aaaa" counts three times. */
  method OverlapScenario() returns (occ: map<String, nat>)
    ensures occ == map["aa" := 3]
  {
    occ := CountOccurrences("aaaa", ["aa"]);
    OverlapExampleRepeated();
    assert occ.Keys == {"aa"};
  }

  /** A keyword listed twice gets one entry, counted once per occurrence. */
  method DuplicateScenario() returns (occ: map<String, nat>)
    ensures occ == map["ab" := 2]
  {
    occ := CountOccurrences("abab", ["ab", "ab"]);
    OverlapExampleDuplicate();
    assert occ.Keys == {"ab"};
  }

  /** No keywords: an empty count map, whatever the text. */
  method NoKeywordsScenario(database: String) returns (occ: map<String, nat>)
    ensures occ == map[]
  {
    occ := CountOccurrences(database, []);
    assert occ.Keys == {};
  }

  /** Empty text: every keyword is counted zero times. */
  method EmptyTextScenario() returns (occ: map<String, nat>)
    ensures occ == map["x" := 0]
  {
    occ := CountOccurrences("", ["x"]);
    assert occ.Keys == {"x"};
  }
}
