# Aho-Corasick keyword counting, modelled in Dafny

This project models the from-scratch Aho-Corasick matcher of the
`string-search` repository (`count_with_trie.py`). The matcher counts, for a
list of query keywords, how often each occurs in a text ("database"),
overlapping occurrences included. It runs in three stages:

1. `build_trie` inserts every keyword into a prefix tree of `TrieNode`s.
   Each node has `children`, `is_end_of_word`, `output` and `fail`.
2. `build_failure_links` walks the trie breadth-first with a FIFO list. It
   points each node's `fail` at the node of the longest proper suffix of its
   path that is also a trie path. It then adds the fail node's `output` to
   the node's own.
3. `search_occurrences` reads the text once. It follows edges and failure
   links, and after each character adds one to the count of every keyword in
   the current node's `output`.

Files:

- `strings.dfy` (module `Strings`): suffixes, and `OverlapCount`. This is the
  naive reference counter: a window of the keyword's width slid over the
  text one character at a time.
- `automaton_spec.dfy` (module `AutomatonSpec`): the value-level
  specification. `LongestSuffixIn(P, s)` is the longest suffix of `s` among
  the trie paths `P`. It is what a failure link and the matcher's current
  node stand for. `Outputs` is the output set each node ends up with.
  `ScanCount` is what the matcher adds up. The lemmas connect these to
  `OverlapCount`.
- `aho_corasick.dfy` (module `AhoCorasick`): the imperative model.
  - The class `Trie` is an arena of nodes. Node `i` has `children[i]`
    (a `map<char, nat>` of arena indices), `isEndOfWord[i]`, `output[i]` and
    `fail[i]`. `NONE = -1` stands for Python's `None`, and `ROOT = 0`.
  - Ghost fields record each node's path, its parent and the keywords
    inserted so far.
  - `build_trie`, `build_failure_links` and `search_occurrences` are methods
    with loops and loop invariants. The breadth-first queue is a sequence plus
    a head index that models `pop(0)`.
- `scenarios.dfy` (module `Scenarios`): the whole pipeline on small
  examples. For `["he", "she", "his", "hers"]` over `"ushers"`
  the counts are 1, 1, 0, 1. For `"aa"` over `"aaaa"` the count is 3.
  A duplicated `"ab"` over `"abab"` gets one entry, with count 2.

Where the code departs from the textbook Aho-Corasick automaton, the model
follows the code:

- The root's `fail` is `None` (here `NONE`), not a link from the root to
  itself. Both failure walks (lines 51-52 and 68-69) stop at `None`. The
  scan then falls back to the root (lines 71-73), and the link
  computation uses the root (line 55).
- Textbook Aho-Corasick has `output(n) = own keyword ∪ output(fail(n))` at
  every node. The code does not apply this to the root's direct children
  (lines 38-40 set their `fail` but never merge `root.output`). This matters
  only for the empty keyword. `Outputs` and `OutputsOfEmptyKeyword` model it
  as written.
- The empty keyword is neither rejected nor counted `len(text) + 1` times.
  It sits in the root's `output`. It also reaches the output of every node
  of depth two or more whose last character on its own is not a trie path.
  So it is counted after each character that leaves the matcher at a
  non-root node, when that character on its own is not a trie path
  (`EmptyKeywordCount`).
- The result map's keys are the queries plus every keyword the scan reported
  (line 79 uses `get(query, 0)`). Every reported keyword is a query, so
  `CountOccurrences` proves that the keys are exactly the queries.

## Model

| member | source | states |
|---|---|---|
| `Strings.OverlapCountSnoc` | count_with_trie.py:67-79 | Counting occurrences by start position equals counting them by end position. One more character adds one occurrence exactly when the keyword is a suffix of the extended text. |
| `AutomatonSpec.PrefixesAdd` | count_with_trie.py:23-27 | Inserting a keyword adds exactly its prefixes to the set of trie paths. |
| `AutomatonSpec.LongestSuffixIsSuffix` | count_with_trie.py:48-55 | The failure target of a path is a suffix of that path. |
| `AutomatonSpec.LongestSuffixAtLeast` | count_with_trie.py:48-55 | No trie-path suffix is longer than the failure target. |
| `AutomatonSpec.LongestSuffixIsLongest` | count_with_trie.py:48-55 | The failure target is a suffix, and it is the longest trie-path suffix. |
| `AutomatonSpec.LongestStep` | count_with_trie.py:67-75 | After reading one more character, the longest trie-path suffix of the text depends only on the previous one. This justifies keeping a single current node. |
| `AutomatonSpec.FailStep` | count_with_trie.py:51-52 | When a node has no edge `c`, moving to its failure node does not change the answer. |
| `AutomatonSpec.ChildFailure` | count_with_trie.py:48-55 | The child's target, found by walking from the parent's failure node, is the longest proper trie-path suffix of the child's path. It is never deeper than the parent. |
| `AutomatonSpec.OutputsOfKeyword` | count_with_trie.py:43-57 | After propagation, a non-empty keyword is in a node's output exactly when it is a suffix of that node's path. Both directions are proved. |
| `AutomatonSpec.EmptyKeywordViaFailure` | count_with_trie.py:57 | At depth two or more, the empty keyword reaches a node exactly through its failure node's output. |
| `AutomatonSpec.LastCharacterPath` | count_with_trie.py:48-55 | The failure target of a node deeper than one ends with the node's last character. It is the root only if that character alone is not a trie path. |
| `AutomatonSpec.OutputsOfEmptyKeyword` | count_with_trie.py:29-57 | The empty keyword is in the root's output. At another node it appears exactly when the node's depth is two or more and its last character alone is not a trie path. |
| `AutomatonSpec.ScanCountMonotone` | count_with_trie.py:78-79 | Counts never decrease as more text is read. |
| `AutomatonSpec.ScanCountOfNonKeyword` | count_with_trie.py:64-79 | A string that is not a keyword is never counted. |
| `AutomatonSpec.ReportsKeyword` | count_with_trie.py:75-79 | After reading a text, a non-empty keyword is reported exactly when it is a suffix of that text. |
| `AutomatonSpec.ScanCountOfKeyword` | count_with_trie.py:67-81 | The matcher's count of a non-empty keyword equals its number of overlapping occurrences (`OverlapCount`). |
| `AutomatonSpec.EmptyKeywordStep` | count_with_trie.py:71-79 | One character counts the empty keyword exactly when the matcher leaves the root and that character alone is not a trie path. |
| `AutomatonSpec.ScanCountOfEmptyKeyword` | count_with_trie.py:67-81 | The matcher's count of the empty keyword is `EmptyKeywordCount`. |
| `AhoCorasick.LeafIsNew` | count_with_trie.py:27 | A missing edge leads to a string that no node spells yet. |
| `AhoCorasick.AddLeaf` | count_with_trie.py:27 | Hanging a new node under a missing edge keeps the children relation a tree, with each node spelling its own distinct path. |
| `AhoCorasick.MarkWord` | count_with_trie.py:29-30 | After marking, the node spelling the keyword is marked as an end of word, and its local output holds exactly that keyword. |
| `AhoCorasick.ParentOfChild` | count_with_trie.py:27 | An edge `c` of node `i` enters a non-root node whose parent is `i` and whose path is `i`'s path followed by `c`. |
| `AhoCorasick.BfsStart` | count_with_trie.py:38-39 | The queue seeded with the root's children satisfies the breadth-first queue invariant. |
| `AhoCorasick.BfsStep` | count_with_trie.py:43-47 | Popping the head and appending its children keeps the queue breadth-first. The set of nodes never queued shrinks, or stays the same when nothing is appended; together with the head index this is the termination measure. |
| `AhoCorasick.BfsDone` | count_with_trie.py:43-47 | When the queue is exhausted, every non-root node has been queued. |
| `AhoCorasick.KeyList` | count_with_trie.py:46 | Lists each key of a node's children exactly once. The iteration order is left open. |
| `AhoCorasick.FollowFailLinks` | count_with_trie.py:51-52 | The fail-link walk terminates. It returns `NONE` exactly when the longest trie-path suffix of `path + [c]` is empty. Otherwise it returns a node with edge `c` whose path followed by `c` is that suffix. |
| `AhoCorasick.LinkRootChildren` | count_with_trie.py:38-40 | Queues exactly the root's children, each once, and sets their `fail` to the root. No other link changes. |
| `AhoCorasick.FailureTarget` | count_with_trie.py:48-55 | The node chosen as the child's `fail` spells the longest proper trie-path suffix of the child's path. Its output is already final. |
| `AhoCorasick.LinkChild` | count_with_trie.py:47-57 | Setting the child's `fail` and merging the target's output makes the child final. No other node changes. |
| `AhoCorasick.LinkEdges` | count_with_trie.py:46-57 | Every child along the listed edges is appended to the queue in order and made final. Nodes that do not hang from the popped node are unchanged. |
| `AhoCorasick.ProcessChildren` | count_with_trie.py:46-57 | Every child of the popped node is appended once and made final. Nothing else changes. |
| `AhoCorasick.BfsRound` | count_with_trie.py:44-57 | One pass of the outer loop keeps every queued node final and every unqueued node holding only its own keyword. |
| `AhoCorasick.FailureLinks` | count_with_trie.py:35-59 | When the breadth-first pass ends, every node's failure link and output set are final (`FinalAt`). |
| `AhoCorasick.Trie.constructor` | count_with_trie.py:12-20 | A fresh trie holds only the root, with no children, no mark, an empty output and no failure link. |
| `AhoCorasick.Trie.FollowSpells` | count_with_trie.py:23-27 | Following the edges that spell `w` from node `i` succeeds exactly when `paths[i] + w` is a trie path, and then ends at the node spelling it. |
| `AhoCorasick.Trie.TreeShape` | count_with_trie.py:20-27 | No edge enters the root. Every edge goes one character deeper. Every other node is entered by exactly one (parent, character) edge. |
| `AhoCorasick.Trie.KeywordStored` | count_with_trie.py:23-30 | After building, the edges from the root spell every keyword, and the end node is marked and holds the keyword in its output. |
| `AhoCorasick.Trie.FailLinkShape` | count_with_trie.py:38-55 | The root's `fail` stays `NONE`, and a child of the root links to the root. Any other node links to the longest proper trie-path suffix of its path, which is strictly shallower. |
| `AhoCorasick.Trie.OutputIsSuffixes` | count_with_trie.py:43-57 | After linking, a node's output holds exactly the non-empty keywords that are suffixes of its path. At depth two or more, the output equals the node's own keyword plus its fail node's output. The empty keyword is placed as `OutputsOfEmptyKeyword` says. |
| `AhoCorasick.Trie.AddChild` | count_with_trie.py:27 | Appends one new empty node under the missing edge. Its path is the parent's path plus `c`, and the trie stays valid. |
| `AhoCorasick.Trie.SetDefaultChild` | count_with_trie.py:27 | Returns the child by `c`, creating it when it is missing. When the path already exists, nothing changes. |
| `AhoCorasick.Trie.MarkEndOfWord` | count_with_trie.py:29-30 | Sets the end-of-word flag and adds the keyword to the node's output. Re-marking an existing keyword changes nothing. |
| `AhoCorasick.Trie.Insert` | count_with_trie.py:23-30 | Adds exactly the keyword's prefixes as trie paths and records the keyword. Inserting a keyword already present leaves the whole trie unchanged, so duplicates build the same trie. A keyword whose every prefix is already a path adds no node. |
| `AhoCorasick.Trie.BuildFailureLinks` | count_with_trie.py:35-59 | Leaves the trie's shape as it is and makes every node final. |
| `AhoCorasick.Trie.SearchOccurrences` | count_with_trie.py:62-81 | The keys are the queries plus every reported keyword. Each count equals `ScanCount`, so every count starts at 0. Invariant: the current node spells the longest trie-path suffix of the text read so far. |
| `AhoCorasick.ScanCharacter` | count_with_trie.py:67-79 | Reading one character moves to the node of the longest trie-path suffix of the longer text, and keeps the counts equal to `ScanCount`. |
| `AhoCorasick.Advance` | count_with_trie.py:68-75 | The walk-then-step lands on the node of the longest trie-path suffix of `path + [c]`. A match is reported exactly when that suffix is not empty. |
| `AhoCorasick.CountedStep` | count_with_trie.py:67-79 | Adding one to each keyword reported after character `j` keeps the counts equal to `ScanCount` of `text[..j + 1]`. |
| `AhoCorasick.CountOutputs` | count_with_trie.py:78-79 | Each keyword in the output set gets one more than before, or 1 if it had no entry. No other count changes. |
| `AhoCorasick.BuildTrie` | count_with_trie.py:18-32 | The keywords are the distinct input strings, and the trie paths are exactly the empty string and every prefix of a keyword. |
| `AhoCorasick.CountOccurrences` | count_with_trie.py:91-96 | The keys are exactly the queries. A non-empty query's count equals its number of overlapping occurrences in the database. The empty query's count is `EmptyKeywordCount`. |
| `Scenarios.UshersScenario` | count_with_trie.py:91-96 | `["he", "she", "his", "hers"]` over `"ushers"` gives `he: 1, she: 1, his: 0, hers: 1`. |
| `Scenarios.OverlapScenario` | count_with_trie.py:91-96 | `["aa"]` over `"aaaa"` gives `aa: 3`. |
| `Scenarios.DuplicateScenario` | count_with_trie.py:91-96 | `["ab", "ab"]` over `"abab"` gives one entry, `ab: 2`. |
| `Scenarios.NoKeywordsScenario` | count_with_trie.py:91-96 | No keywords give an empty count map for any text. |
| `Scenarios.EmptyTextScenario` | count_with_trie.py:91-96 | `["x"]` over `""` gives `x: 0`. |

## Left out

- File I/O in `count_occurrences` (lines 84-89, 98-100) and the `__main__` block (lines 103-115): reading the database and query files, `splitlines`, and writing the output file. `CountOccurrences` models lines 91-96 with the database text and the query list as parameters.
- Output order: the order in which the output file lists the keywords (dictionary insertion order) is not modelled. The count map is a Dafny `map`.
- Child order: the order in which `children.items()` / `children.values()` visit a node's children is left open. `KeyList` returns the keys in some order, and the proofs hold for any order.
- Node objects: each `TrieNode` is an index into one arena object (`Trie`) rather than a separate heap object. Children and failure references are indices, so aliasing between node objects is not modelled.
- Output sets: `output` is a mathematical set of strings. Python's set and dict hashing is not modelled.
- Queue cost: `queue.pop(0)` is quadratic in the source. Here the queue is a sequence plus a head index, so only the FIFO order is modelled, not the cost.
- Update granularity: `build_failure_links` updates each node's `fail` and `output` one child at a time, as whole-sequence updates on `fail` and `output`. The class method then stores the resulting sequences back into the fields.
- Other counting strategies: `compare_runtimes.py`, `count_with_ahocorasick.py`, `count_with_regex.py` and `count_with_pycount.py` are not part of this model. They are I/O wrappers around external libraries and the benchmark harness, and `re.findall` and `str.count` count non-overlapping matches.
