/** The trie-based Aho-Corasick matcher of `count_with_trie.py`: trie
    building, breadth-first failure-link computation and the single-pass
    scan, on an arena of nodes addressed by index. Line numbers in the
    comments below refer to `count_with_trie.py`. */
module AhoCorasick {
  import opened Strings
  import opened AutomatonSpec

  /** A `fail` reference that points nowhere (Python's `None`). */
  const NONE: int := -1

  /** The arena index of the root node. */
  const ROOT: nat := 0

  /** Every edge points into the arena. */
  predicate EdgesInRange(children: seq<map<char, nat>>) {
    forall i, c {:trigger children[i][c]} :: 0 <= i < |children| && c in children[i] ==> children[i][c] < |children|
  }

  /** An edge labelled `c` leads to a node whose path is one `c` longer. */
  ghost predicate EdgesExtend(children: seq<map<char, nat>>, paths: seq<String>)
    requires EdgesInRange(children) && |paths| == |children|
  {
    forall i, c {:trigger children[i][c]} :: 0 <= i < |children| && c in children[i] ==>
      paths[children[i][c]] == paths[i] + [c]
  }

  /** Every node but the root hangs from `parent[j]` by the edge labelled
      with the last character of its path. */
  ghost predicate HasParents(children: seq<map<char, nat>>, paths: seq<String>, parent: seq<nat>)
    requires |paths| == |children| == |parent|
  {
    forall j {:trigger parent[j]} :: 0 < j < |children| ==>
      && parent[j] < |children| && |paths[j]| > 0
      && paths[parent[j]] == paths[j][..|paths[j]| - 1]
      && paths[j][|paths[j]| - 1] in children[parent[j]]
      && children[parent[j]][paths[j][|paths[j]| - 1]] == j
  }

  /** The last node spelling each string. */
  ghost function LastIndex(paths: seq<String>): map<String, nat>
    decreases |paths|
  {
    if paths == [] then map[]
    else LastIndex(paths[..|paths| - 1])[paths[|paths| - 1] := |paths| - 1]
  }

  /** No two nodes spell the same string: each node is the last one that
      spells its path. Stated through `LastIndex` rather than over pairs of
      nodes, so that it costs one instance per node. */
  ghost predicate Injective(paths: seq<String>) {
    forall i {:trigger paths[i]} :: 0 <= i < |paths| ==> paths[i] in LastIndex(paths) && LastIndex(paths)[paths[i]] == i
  }

  /** `children` is a tree rooted at ROOT whose node `i` spells `paths[i]`. */
  ghost predicate IsTree(children: seq<map<char, nat>>, paths: seq<String>, parent: seq<nat>) {
    && |children| == |paths| == |parent| >= 1
    && paths[ROOT] == []
    && EdgesInRange(children)
    && EdgesExtend(children, paths)
    && HasParents(children, paths, parent)
    && Injective(paths)
  }

  /** The arena with a new empty node appended and hung under `node` by `c`. */
  function WithLeaf(children: seq<map<char, nat>>, node: nat, c: char): (r: seq<map<char, nat>>)
    requires node < |children|
    ensures |r| == |children| + 1 && r[|children|] == map[]
    ensures r[node] == children[node][c := |children|]
    ensures forall i :: 0 <= i < |children| && i != node ==> r[i] == children[i]
  {
    var edges: map<char, nat> := children[node][c := |children|];
    children[node := edges] + [map[]]
  }

  /** A missing edge leads to a string no node spells yet. */
  lemma LeafIsNew(children: seq<map<char, nat>>, paths: seq<String>, parent: seq<nat>, node: nat, c: char)
    requires IsTree(children, paths, parent)
    requires node < |paths| && c !in children[node]
    ensures paths[node] + [c] !in paths
  {
    forall j | 0 < j < |paths| && paths[j][..|paths[j]| - 1] == paths[node]
      ensures paths[j][|paths[j]| - 1] in children[node]
    {
      assert paths[parent[j]] == paths[node];
    }
  }

  lemma LeafEdges(children: seq<map<char, nat>>, paths: seq<String>, node: nat, c: char)
    requires EdgesInRange(children) && |paths| == |children| && EdgesExtend(children, paths)
    requires node < |paths| && c !in children[node]
    ensures EdgesInRange(WithLeaf(children, node, c))
    ensures EdgesExtend(WithLeaf(children, node, c), paths + [paths[node] + [c]])
  {
    var children' := WithLeaf(children, node, c);
    var paths' := paths + [paths[node] + [c]];
    forall i, d | 0 <= i < |children'| && d in children'[i]
      ensures children'[i][d] < |children'| && paths'[children'[i][d]] == paths'[i] + [d]
    {
      if i != node || d != c {
        assert children'[i][d] == children[i][d];
      }
    }
  }

  lemma LeafParents(children: seq<map<char, nat>>, paths: seq<String>, parent: seq<nat>, node: nat, c: char)
    requires |paths| == |children| == |parent| && HasParents(children, paths, parent)
    requires node < |paths| && c !in children[node]
    ensures HasParents(WithLeaf(children, node, c), paths + [paths[node] + [c]], parent + [node])
  {
    var n := |children|;
    var children' := WithLeaf(children, node, c);
    var paths' := paths + [paths[node] + [c]];
    var parent' := parent + [node];
    forall j | 0 < j < |children'|
      ensures && parent'[j] < |children'| && |paths'[j]| > 0
              && paths'[parent'[j]] == paths'[j][..|paths'[j]| - 1]
              && paths'[j][|paths'[j]| - 1] in children'[parent'[j]]
              && children'[parent'[j]][paths'[j][|paths'[j]| - 1]] == j
    {
      if j == n {
        assert paths'[j][..|paths'[j]| - 1] == paths[node];
      } else {
        assert parent'[j] == parent[j] && paths'[j] == paths[j];
        assert children[parent[j]][paths[j][|paths[j]| - 1]] == j;
      }
    }
  }

  lemma LeafInjective(paths: seq<String>, x: String)
    requires Injective(paths) && x !in paths
    ensures Injective(paths + [x])
  {
    var paths' := paths + [x];
    assert paths'[..|paths'| - 1] == paths;
    assert LastIndex(paths') == LastIndex(paths)[x := |paths|];
    forall i | 0 <= i < |paths'| ensures paths'[i] in LastIndex(paths') && LastIndex(paths')[paths'[i]] == i {
      if i < |paths| {
        assert paths'[i] == paths[i] != x;
      }
    }
  }

  /** Hanging a new leaf under `node` by a missing edge `c` keeps the tree. */
  lemma AddLeaf(children: seq<map<char, nat>>, paths: seq<String>, parent: seq<nat>, node: nat, c: char)
    requires IsTree(children, paths, parent)
    requires node < |paths| && c !in children[node]
    ensures paths[node] + [c] !in paths
    ensures IsTree(WithLeaf(children, node, c), paths + [paths[node] + [c]], parent + [node])
  {
    LeafIsNew(children, paths, parent, node, c);
    LeafEdges(children, paths, node, c);
    LeafParents(children, paths, parent, node, c);
    LeafInjective(paths, paths[node] + [c]);
  }

  /** A node is marked as the end of a word exactly when it spells a keyword
      of `K`, and every keyword of `K` is spelled by some node. */
  ghost predicate IsMarked(isEndOfWord: seq<bool>, paths: seq<String>, K: set<String>) {
    && |isEndOfWord| == |paths|
    && (forall i :: 0 <= i < |paths| ==> isEndOfWord[i] == (paths[i] in K))
    && (forall k :: k in K ==> k in paths)
  }

  /** No failure links yet, and each node's output holds only the keyword it
      spells itself. */
  ghost predicate IsUnlinked(output: seq<set<String>>, fail: seq<int>, paths: seq<String>, K: set<String>) {
    && |output| == |paths| && |fail| == |paths|
    && (forall i :: 0 <= i < |paths| ==> fail[i] == NONE && output[i] == LocalOutput(K, paths[i]))
  }

  lemma LeafUnmarked(isEndOfWord: seq<bool>, output: seq<set<String>>, fail: seq<int>,
                     paths: seq<String>, K: set<String>, x: String)
    requires IsMarked(isEndOfWord, paths, K) && IsUnlinked(output, fail, paths, K) && x !in paths
    ensures IsMarked(isEndOfWord + [false], paths + [x], K)
    ensures IsUnlinked(output + [{}], fail + [NONE], paths + [x], K)
  {
    assert x !in K;
    forall k | k in K ensures k in paths + [x] {
      assert k in paths;
    }
  }

  /** Marking the node that spells `w` as the end of a word records `w`. */
  lemma MarkWord(isEndOfWord: seq<bool>, output: seq<set<String>>, fail: seq<int>,
                 paths: seq<String>, K: set<String>, node: nat, w: String)
    requires IsMarked(isEndOfWord, paths, K) && IsUnlinked(output, fail, paths, K)
    requires Injective(paths) && node < |paths| && paths[node] == w
    ensures IsMarked(isEndOfWord[node := true], paths, K + {w})
    ensures IsUnlinked(output[node := output[node] + {w}], fail, paths, K + {w})
  {
    var output' := output[node := output[node] + {w}];
    forall i | 0 <= i < |paths| ensures output'[i] == LocalOutput(K + {w}, paths[i]) {
      if i != node {
        assert paths[i] != w;
      }
    }
  }

  /** The node a non-root node hangs from is one character shallower, and
      the node an edge `c` of `i` enters hangs from `i`. */
  lemma ParentOfChild(children: seq<map<char, nat>>, paths: seq<String>, parent: seq<nat>, i: nat, c: char)
    requires IsTree(children, paths, parent)
    requires i < |children| && c in children[i]
    ensures 0 < children[i][c] < |children|
    ensures parent[children[i][c]] == i
    ensures paths[children[i][c]] == paths[i] + [c]
  {
    var j := children[i][c];
    assert paths[j] == paths[i] + [c];
    assert paths[j] != paths[ROOT];
    assert paths[j][..|paths[j]| - 1] == paths[i];
    assert paths[parent[j]] == paths[i];
  }

  /** Two edges of one node enter different nodes. */
  lemma DistinctEdges(children: seq<map<char, nat>>, paths: seq<String>, parent: seq<nat>, i: nat, c: char)
    requires IsTree(children, paths, parent)
    requires i < |children| && c in children[i]
    ensures forall c' :: c' in children[i] && c' != c ==> children[i][c'] != children[i][c]
  {
    forall c' | c' in children[i] && c' != c ensures children[i][c'] != children[i][c] {
      assert (paths[i] + [c])[|paths[i]|] != (paths[i] + [c'])[|paths[i]|];
    }
  }

  /** Every node hanging from `i` is entered by one of `i`'s edges. */
  lemma HangsByEdge(children: seq<map<char, nat>>, paths: seq<String>, parent: seq<nat>, i: nat, j: nat)
    requires IsTree(children, paths, parent)
    requires 0 < j < |paths| && parent[j] == i
    ensures exists c :: c in children[i] && children[i][c] == j
  {
    var c := paths[j][|paths[j]| - 1];
    assert c in children[i] && children[i][c] == j;
  }

  /** What a loop over the edges of node `u` needs to know: each edge
      enters a distinct node hanging from `u`, and every node hanging from
      `u` is entered by one of them. */
  ghost predicate IsChildrenOf(children: seq<map<char, nat>>, parent: seq<nat>, u: nat) {
    && |parent| == |children| && u < |children|
    && (forall c :: c in children[u] ==> 0 < children[u][c] < |children| && parent[children[u][c]] == u)
    && (forall c, c' :: c in children[u] && c' in children[u] && c != c' ==> children[u][c] != children[u][c'])
    && (forall j :: 0 < j < |children| && parent[j] == u ==> j in children[u].Values)
  }

  lemma TreeChildren(children: seq<map<char, nat>>, paths: seq<String>, parent: seq<nat>, u: nat)
    requires IsTree(children, paths, parent) && u < |children|
    ensures IsChildrenOf(children, parent, u)
  {
    forall c | c in children[u] ensures 0 < children[u][c] < |children| && parent[children[u][c]] == u {
      ParentOfChild(children, paths, parent, u, c);
    }
    forall c | c in children[u] { DistinctEdges(children, paths, parent, u, c); }
    forall j | 0 < j < |children| && parent[j] == u ensures j in children[u].Values {
      HangsByEdge(children, paths, parent, u, j);
    }
  }

  /** Following each of `u`'s edges, listed once each, visits each node
      hanging from `u` exactly once. */
  lemma EdgeTargets(children: seq<map<char, nat>>, parent: seq<nat>, u: nat, edges: seq<char>, targets: seq<nat>)
    requires IsChildrenOf(children, parent, u)
    requires forall c :: c in edges <==> c in children[u]
    requires forall a, b :: 0 <= a < b < |edges| ==> edges[a] != edges[b]
    requires |targets| == |edges| && forall a :: 0 <= a < |edges| ==> targets[a] == children[u][edges[a]]
    ensures forall j :: j in targets <==> 0 < j < |children| && parent[j] == u
    ensures forall a, b :: 0 <= a < b < |targets| ==> targets[a] != targets[b]
  {
    forall j | 0 < j < |children| && parent[j] == u ensures j in targets {
      var c :| c in children[u] && children[u][c] == j;
      var a :| 0 <= a < |edges| && edges[a] == c;
      assert targets[a] == j;
    }
  }

  /** Each non-root node is one character deeper than its parent. */
  ghost predicate ParentsShallower(paths: seq<String>, parent: seq<nat>)
    requires |parent| == |paths|
  {
    forall j {:trigger parent[j]} :: 0 < j < |paths| ==> parent[j] < |paths| && |paths[parent[j]]| + 1 == |paths[j]|
  }

  lemma TreeParentsShallower(children: seq<map<char, nat>>, paths: seq<String>, parent: seq<nat>)
    requires IsTree(children, paths, parent)
    ensures ParentsShallower(paths, parent)
  {
  }

  /** The breadth-first queue of `build_failure_links`, with `pop(0)`
      modelled by an index: `queue[..head]` are the nodes already popped and
      `queue[head..]` is the list the source holds. The queue never repeats
      a node and never holds the root; it is ordered by depth and spans at
      most two depths; a node is queued exactly when it hangs from the root
      or from a popped node; and every node no deeper than the next one to
      pop is queued. */
  ghost predicate IsBfsQueue(paths: seq<String>, parent: seq<nat>, queue: seq<nat>, head: nat)
    requires |parent| == |paths|
  {
    && head <= |queue|
    && (forall a :: 0 <= a < |queue| ==> 0 < queue[a] < |paths|)
    && (forall a, b :: 0 <= a < b < |queue| ==> queue[a] != queue[b])
    && (forall a, b :: 0 <= a < b < |queue| ==> |paths[queue[a]]| <= |paths[queue[b]]|)
    && (head < |queue| ==> |paths[queue[|queue| - 1]]| <= |paths[queue[head]]| + 1)
    && (forall j :: 0 < j < |paths| ==> (j in queue <==> parent[j] == ROOT || parent[j] in queue[..head]))
    && (head < |queue| ==> forall j :: 0 < j < |paths| && |paths[j]| <= |paths[queue[head]]| ==> j in queue)
  }

  /** The non-root nodes not queued yet. */
  ghost function Unseen(n: nat, queue: seq<nat>): set<nat> {
    set j | 0 < j < n && j !in queue
  }

  /** The queue after the root's children are appended (lines 38-39). */
  lemma BfsStart(children: seq<map<char, nat>>, paths: seq<String>, parent: seq<nat>, queue: seq<nat>)
    requires IsTree(children, paths, parent)
    requires forall j :: j in queue <==> 0 < j < |paths| && parent[j] == ROOT
    requires forall a, b :: 0 <= a < b < |queue| ==> queue[a] != queue[b]
    ensures IsBfsQueue(paths, parent, queue, 0)
  {
    forall j | 0 < j < |paths| && |paths[j]| <= 1 ensures parent[j] == ROOT {
      assert paths[parent[j]] == paths[ROOT];
    }
    forall a | 0 <= a < |queue| ensures 0 < queue[a] < |paths| && |paths[queue[a]]| == 1 {
      assert queue[a] in queue;
    }
  }

  /** The children of the node about to be popped are not queued yet. */
  lemma BfsUnqueued(paths: seq<String>, parent: seq<nat>, queue: seq<nat>, head: nat, j: nat)
    requires |parent| == |paths| && IsBfsQueue(paths, parent, queue, head)
    requires head < |queue| && 0 < j < |paths| && parent[j] == queue[head]
    ensures j !in queue
  {
    forall a | 0 <= a < head ensures queue[a] != parent[j] {
    }
  }

  /** `queue'` is `queue` followed by the nodes hanging from `queue[head]`,
      each once: what the inner loop of lines 46-57 appends. */
  ghost predicate AppendsChildren(paths: seq<String>, parent: seq<nat>, queue: seq<nat>, head: nat, queue': seq<nat>)
    requires |parent| == |paths| && head < |queue|
  {
    && |queue'| >= |queue| && queue'[..|queue|] == queue
    && (forall j :: j in queue'[|queue|..] <==> 0 < j < |paths| && parent[j] == queue[head])
    && (forall a, b :: |queue| <= a < b < |queue'| ==> queue'[a] != queue'[b])
  }

  lemma BfsAppended(paths: seq<String>, parent: seq<nat>, queue: seq<nat>, head: nat, queue': seq<nat>)
    requires |parent| == |paths| && ParentsShallower(paths, parent)
    requires IsBfsQueue(paths, parent, queue, head) && head < |queue|
    requires AppendsChildren(paths, parent, queue, head, queue')
    ensures forall a :: |queue| <= a < |queue'| ==>
      && 0 < queue'[a] < |paths| && parent[queue'[a]] == queue[head]
      && |paths[queue'[a]]| == |paths[queue[head]]| + 1 && queue'[a] !in queue
  {
    forall a | |queue| <= a < |queue'|
      ensures && 0 < queue'[a] < |paths| && parent[queue'[a]] == queue[head]
              && |paths[queue'[a]]| == |paths[queue[head]]| + 1 && queue'[a] !in queue
    {
      assert queue'[a] in queue'[|queue|..];
      BfsUnqueued(paths, parent, queue, head, queue'[a]);
    }
  }

  lemma BfsSpread(paths: seq<String>, parent: seq<nat>, queue: seq<nat>, head: nat)
    requires |parent| == |paths| && IsBfsQueue(paths, parent, queue, head) && head < |queue|
    ensures forall a :: 0 <= a < |queue| ==> |paths[queue[a]]| <= |paths[queue[head]]| + 1
  {
    var n := |queue|;
    forall a | 0 <= a < n ensures |paths[queue[a]]| <= |paths[queue[head]]| + 1 {
      if a < n - 1 {
        assert |paths[queue[a]]| <= |paths[queue[n - 1]]|;
      }
    }
  }

  lemma Extends(queue: seq<nat>, queue': seq<nat>)
    requires |queue'| >= |queue| && queue'[..|queue|] == queue
    ensures forall a :: 0 <= a < |queue| ==> queue'[a] == queue[a]
    ensures forall j :: j in queue' <==> j in queue || j in queue'[|queue|..]
  {
    assert queue' == queue + queue'[|queue|..];
  }

  /** Popping `queue[head]` and appending exactly the nodes that hang from
      it, each once, keeps the queue breadth-first. */
  lemma BfsStep(children: seq<map<char, nat>>, paths: seq<String>, parent: seq<nat>,
                queue: seq<nat>, head: nat, queue': seq<nat>)
    requires |parent| == |paths| && ParentsShallower(paths, parent)
    requires IsBfsQueue(paths, parent, queue, head) && head < |queue|
    requires AppendsChildren(paths, parent, queue, head, queue')
    ensures IsBfsQueue(paths, parent, queue', head + 1)
    ensures Unseen(|paths|, queue') < Unseen(|paths|, queue)
         || (Unseen(|paths|, queue') == Unseen(|paths|, queue) && |queue'| == |queue|)
  {
    BfsAppended(paths, parent, queue, head, queue');
    BfsSpread(paths, parent, queue, head);
    Extends(queue, queue');
    BfsStepOrder(paths, parent, queue, head, queue');
    BfsStepMembers(paths, parent, queue, head, queue');
    BfsStepLevel(paths, parent, queue, head, queue');
    if |queue'| > |queue| {
      assert queue'[|queue|] in Unseen(|paths|, queue);
      assert queue'[|queue|] !in Unseen(|paths|, queue');
    } else {
      assert queue' == queue;
    }
  }

  lemma BfsStepOrder(paths: seq<String>, parent: seq<nat>, queue: seq<nat>, head: nat, queue': seq<nat>)
    requires |parent| == |paths| && IsBfsQueue(paths, parent, queue, head) && head < |queue|
    requires |queue'| >= |queue|
    requires forall a :: 0 <= a < |queue| ==> queue'[a] == queue[a]
    requires forall a :: |queue| <= a < |queue'| ==>
      && 0 < queue'[a] < |paths| && |paths[queue'[a]]| == |paths[queue[head]]| + 1 && queue'[a] !in queue
    requires forall a :: 0 <= a < |queue| ==> |paths[queue[a]]| <= |paths[queue[head]]| + 1
    requires forall a, b :: |queue| <= a < b < |queue'| ==> queue'[a] != queue'[b]
    ensures forall a :: 0 <= a < |queue'| ==> 0 < queue'[a] < |paths|
    ensures forall a, b :: 0 <= a < b < |queue'| ==> queue'[a] != queue'[b]
    ensures forall a, b :: 0 <= a < b < |queue'| ==> |paths[queue'[a]]| <= |paths[queue'[b]]|
    ensures head + 1 < |queue'| ==> |paths[queue'[|queue'| - 1]]| <= |paths[queue'[head + 1]]| + 1
  {
    forall a, b | 0 <= a < b < |queue'| ensures queue'[a] != queue'[b] {
      if a < |queue| && |queue| <= b {
        assert queue'[a] in queue;
      }
    }
  }

  lemma BfsStepMembers(paths: seq<String>, parent: seq<nat>, queue: seq<nat>, head: nat, queue': seq<nat>)
    requires |parent| == |paths| && head < |queue|
    requires forall j :: 0 < j < |paths| ==> (j in queue <==> parent[j] == ROOT || parent[j] in queue[..head])
    requires |queue'| >= |queue| && queue'[..|queue|] == queue
    requires forall j :: j in queue'[|queue|..] <==> 0 < j < |paths| && parent[j] == queue[head]
    requires forall j :: j in queue' <==> j in queue || j in queue'[|queue|..]
    ensures forall j :: 0 < j < |paths| ==> (j in queue' <==> parent[j] == ROOT || parent[j] in queue'[..head + 1])
  {
    var popped := queue'[..head + 1];
    assert popped == queue[..head] + [queue[head]];
    forall j | 0 < j < |paths| ensures j in queue' <==> parent[j] == ROOT || parent[j] in popped {
      assert parent[j] in popped <==> parent[j] in queue[..head] || parent[j] == queue[head];
    }
  }

  /** A node no deeper than the next one to pop is queued after the step:
      either it was queued before, or it is one level down and its parent
      has been popped. */
  lemma BfsLevelMember(paths: seq<String>, parent: seq<nat>, queue: seq<nat>, head: nat, queue': seq<nat>, j: nat)
    requires |parent| == |paths| && ParentsShallower(paths, parent)
    requires head < |queue| <= |queue'| && head + 1 < |queue'|
    requires forall a :: 0 <= a < |queue| ==> queue'[a] == queue[a]
    requires forall a :: 0 <= a < |queue'| ==> queue'[a] < |paths|
    requires forall a :: 0 <= a < |queue| ==> queue[a] < |paths|
    requires forall i :: 0 < i < |paths| && |paths[i]| <= |paths[queue[head]]| ==> i in queue
    requires forall b :: head + 1 < b < |queue'| ==> |paths[queue'[head + 1]]| <= |paths[queue'[b]]|
    requires |paths[queue'[head + 1]]| <= |paths[queue[head]]| + 1
    requires forall i :: 0 < i < |paths| ==> (i in queue' <==> parent[i] == ROOT || parent[i] in queue'[..head + 1])
    requires 0 < j < |paths| && |paths[j]| <= |paths[queue'[head + 1]]|
    ensures j in queue'
  {
    var d := |paths[queue[head]]|;
    if |paths[j]| <= d {
      assert j in queue;
      var a :| 0 <= a < |queue| && queue[a] == j;
      assert queue'[a] == j;
    } else {
      var p := parent[j];
      assert |paths[p]| + 1 == |paths[j]|;
      if p != ROOT {
        assert p in queue;
        var b :| 0 <= b < |queue| && queue[b] == p;
        assert queue'[b] == p;
        assert b <= head;
        assert queue'[..head + 1][b] == p;
      }
    }
  }

  lemma BfsStepLevel(paths: seq<String>, parent: seq<nat>, queue: seq<nat>, head: nat, queue': seq<nat>)
    requires |parent| == |paths| && IsBfsQueue(paths, parent, queue, head) && head < |queue|
    requires ParentsShallower(paths, parent)
    requires |queue'| >= |queue| && queue'[..|queue|] == queue
    requires forall a :: 0 <= a < |queue'| ==> 0 < queue'[a] < |paths|
    requires forall a, b :: 0 <= a < b < |queue'| ==> |paths[queue'[a]]| <= |paths[queue'[b]]|
    requires forall a :: 0 <= a < |queue'| ==> |paths[queue'[a]]| <= |paths[queue[head]]| + 1
    requires forall j :: 0 < j < |paths| ==> (j in queue' <==> parent[j] == ROOT || parent[j] in queue'[..head + 1])
    ensures head + 1 < |queue'| ==>
      forall j :: 0 < j < |paths| && |paths[j]| <= |paths[queue'[head + 1]]| ==> j in queue'
  {
    if head + 1 < |queue'| {
      assert forall a :: 0 <= a < |queue| ==> queue'[a] == queue[a];
      forall j | 0 < j < |paths| && |paths[j]| <= |paths[queue'[head + 1]]| ensures j in queue' {
        BfsLevelMember(paths, parent, queue, head, queue', j);
      }
    }
  }

  /** Once the queue is exhausted every non-root node has been queued: by
      induction on depth, because each node's parent has been popped. */
  lemma {:induction false} BfsDone(paths: seq<String>, parent: seq<nat>, children: seq<map<char, nat>>,
                                   queue: seq<nat>, j: nat)
    requires IsTree(children, paths, parent)
    requires IsBfsQueue(paths, parent, queue, |queue|)
    requires 0 < j < |paths|
    ensures j in queue
    decreases |paths[j]|
  {
    var p := parent[j];
    assert |paths[p]| < |paths[j]|;
    if p != ROOT {
      BfsDone(paths, parent, children, queue, p);
      assert queue[..|queue|] == queue;
    }
  }

  /** The keys of `m` listed once each, in some order: the order in which
      iterating over a dictionary's items visits its entries is not
      modelled. */
  method KeyList(m: map<char, nat>) returns (keys: seq<char>)
    ensures forall c :: c in keys <==> c in m
    ensures forall a, b :: 0 <= a < b < |keys| ==> keys[a] != keys[b]
  {
    keys := [];
    var rest := m.Keys;
    while rest != {}
      invariant rest <= m.Keys
      invariant forall c :: c in keys <==> c in m && c !in rest
      invariant forall a, b :: 0 <= a < b < |keys| ==> keys[a] != keys[b]
      decreases rest
    {
      var c :| c in rest;
      keys := keys + [c];
      rest := rest - {c};
    }
  }

  /** The strings in a sequence of strings: for the arena's paths, the
      strings the nodes spell. */
  ghost function Spelled(paths: seq<String>): set<String> {
    set p | p in paths
  }

  lemma SpelledSnoc(paths: seq<String>, x: String)
    ensures Spelled(paths + [x]) == Spelled(paths) + {x}
  {
    assert forall p :: p in paths + [x] <==> p in paths || p == x;
  }

  lemma SpelledPrefix(s: seq<String>, i: nat)
    requires i < |s|
    ensures Spelled(s[..i + 1]) == Spelled(s[..i]) + {s[i]}
  {
    assert s[..i + 1] == s[..i] + [s[i]];
    SpelledSnoc(s[..i], s[i]);
  }

  /** With failure links `links`, node `i`'s link is final: none for the
      root, otherwise the node spelling the longest proper suffix of its
      path that is a trie path. */
  ghost predicate LinkOk(paths: seq<String>, links: seq<int>, i: nat) {
    && i < |links| && i < |paths| && [] in Spelled(paths)
    && if i == ROOT then links[i] == NONE
       else
         && paths[i] != []
         && 0 <= links[i] < |paths|
         && paths[links[i]] == LongestSuffixIn(Spelled(paths), paths[i][1..])
  }

  /** With failure links `links` and output sets `outs`, node `i` is final:
      its link is final and its output set is `Outputs` of its path. */
  ghost predicate FinalAt(K: set<String>, paths: seq<String>, links: seq<int>, outs: seq<set<String>>, i: nat) {
    LinkOk(paths, links, i) && i < |outs| && outs[i] == Outputs(K, Spelled(paths), paths[i])
  }

  /** Whether a node is final depends on its own link and output set only. */
  lemma FinalAtFrame(K: set<String>, paths: seq<String>, links: seq<int>, outs: seq<set<String>>,
                     links': seq<int>, outs': seq<set<String>>, i: nat)
    requires FinalAt(K, paths, links, outs, i)
    requires i < |links'| && i < |outs'| && links'[i] == links[i] && outs'[i] == outs[i]
    ensures FinalAt(K, paths, links', outs', i)
  {
  }

  /** A node at depth two or more whose link points at `target`, the node
      for the longest proper suffix of its path, becomes final when it adds
      the target's (final) output set to its own keyword. */
  lemma ChildFinal(K: set<String>, paths: seq<String>, links: seq<int>, outs: seq<set<String>>, child: nat, target: nat)
    requires |links| == |paths| && |outs| == |paths| && child < |paths| && target < |paths|
    requires [] in Spelled(paths) && child != ROOT && |paths[child]| >= 2
    requires paths[target] == LongestSuffixIn(Spelled(paths), paths[child][1..])
    requires outs[target] == Outputs(K, Spelled(paths), paths[target])
    requires outs[child] == LocalOutput(K, paths[child])
    ensures FinalAt(K, paths, links[child := target], outs[child := outs[child] + outs[target]], child)
  {
    assert Outputs(K, Spelled(paths), paths[child]) == LocalOutput(K, paths[child]) + outs[target];
  }

  /** Every prefix of a node's path is spelled by a node. */
  lemma {:induction false} PrefixOfNode(children: seq<map<char, nat>>, paths: seq<String>, parent: seq<nat>, i: nat, m: nat)
    requires IsTree(children, paths, parent) && i < |paths| && m <= |paths[i]|
    ensures paths[i][..m] in paths
    decreases |paths[i]|
  {
    if m < |paths[i]| {
      assert i != ROOT;
      PrefixOfNode(children, paths, parent, parent[i], m);
      assert paths[parent[i]][..m] == paths[i][..m];
    } else {
      assert paths[i][..m] == paths[i];
    }
  }

  lemma PrefixClosedPaths(children: seq<map<char, nat>>, paths: seq<String>, parent: seq<nat>)
    requires IsTree(children, paths, parent)
    ensures [] in Spelled(paths) && PrefixClosed(Spelled(paths))
  {
    assert paths[ROOT] in paths;
    forall x, m | x in Spelled(paths) && 0 <= m <= |x| ensures x[..m] in Spelled(paths) {
      var i :| 0 <= i < |paths| && paths[i] == x;
      PrefixOfNode(children, paths, parent, i, m);
    }
  }

  /** A node has an edge `c` exactly when its path followed by `c` is a
      trie path. */
  lemma ChildIn(children: seq<map<char, nat>>, paths: seq<String>, parent: seq<nat>, i: nat, c: char)
    requires IsTree(children, paths, parent) && i < |paths|
    ensures c in children[i] <==> paths[i] + [c] in Spelled(paths)
  {
    if paths[i] + [c] in Spelled(paths) {
      var j :| 0 <= j < |paths| && paths[j] == paths[i] + [c];
      assert j != ROOT;
      assert paths[j][..|paths[j]| - 1] == paths[i];
      assert paths[parent[j]] == paths[i];
    }
  }

  /** Lines 38-40 leave the root and its children final: the root keeps no
      link, each child of the root links to the root, and nodes this
      shallow keep their own output set. */
  lemma ShallowFinal(children: seq<map<char, nat>>, paths: seq<String>, parent: seq<nat>, K: set<String>,
                     fail: seq<int>, output: seq<set<String>>, links: seq<int>, i: nat)
    requires IsTree(children, paths, parent) && IsUnlinked(output, fail, paths, K)
    requires [] in Spelled(paths)
    requires |links| == |paths|
    requires forall i :: 0 <= i < |paths| ==>
      links[i] == if i != ROOT && parent[i] == ROOT then ROOT else fail[i]
    requires i < |paths| && |paths[i]| <= 1
    ensures FinalAt(K, paths, links, output, i)
  {
    if i != ROOT {
      assert paths[i] != paths[ROOT];
      assert paths[parent[i]] == paths[ROOT];
      assert paths[i][1..] == [];
    }
  }

  /** After one pass of the outer loop, the root and every queued node are
      final and every node not queued still holds only its own keyword. */
  lemma QueueFinal(paths: seq<String>, parent: seq<nat>, K: set<String>, queue: seq<nat>, head: nat,
                   queue': seq<nat>, links: seq<int>, outs: seq<set<String>>,
                   links': seq<int>, outs': seq<set<String>>)
    requires |parent| == |paths| && IsBfsQueue(paths, parent, queue, head) && head < |queue|
    requires |links| == |paths| && |outs| == |paths| && |links'| == |paths| && |outs'| == |paths|
    requires |queue'| >= |queue| && queue'[..|queue|] == queue
    requires forall j :: j in queue'[|queue|..] <==> 0 < j < |paths| && parent[j] == queue[head]
    requires forall j :: 0 < j < |paths| && parent[j] == queue[head] ==> FinalAt(K, paths, links', outs', j)
    requires forall i :: 0 <= i < |paths| && (i == ROOT || parent[i] != queue[head]) ==>
      links'[i] == links[i] && outs'[i] == outs[i]
    requires forall i {:trigger FinalAt(K, paths, links, outs, i)} ::
      0 <= i < |paths| && (i == ROOT || i in queue) ==> FinalAt(K, paths, links, outs, i)
    requires forall j {:trigger outs[j]} :: 0 < j < |paths| && j !in queue ==>
      outs[j] == LocalOutput(K, paths[j])
    ensures forall i {:trigger FinalAt(K, paths, links', outs', i)} ::
      0 <= i < |paths| && (i == ROOT || i in queue') ==> FinalAt(K, paths, links', outs', i)
    ensures forall j {:trigger outs'[j]} :: 0 < j < |paths| && j !in queue' ==>
      outs'[j] == LocalOutput(K, paths[j])
  {
    Extends(queue, queue');
    forall i | 0 <= i < |paths| && (i == ROOT || i in queue') ensures FinalAt(K, paths, links', outs', i) {
      if i == ROOT || i in queue {
        if i != ROOT && parent[i] == queue[head] {
          BfsUnqueued(paths, parent, queue, head, i);
        }
        FinalAtFrame(K, paths, links, outs, links', outs', i);
      } else {
        assert i in queue'[|queue|..];
      }
    }
    forall j | 0 < j < |paths| && j !in queue' ensures outs'[j] == LocalOutput(K, paths[j]) {
      assert j !in queue'[|queue|..];
    }
  }

  /** The walk shared by failure-link computation (lines 50-52) and
      scanning (lines 68-69): from `start`, follow the failure links
      `links` while the node has no edge `c`. The result is NONE when even
      the root has no edge `c`; otherwise it is a node with an edge `c`,
      and either way it determines the longest trie-path suffix of
      `paths[start] + [c]`. Only the links of nodes no deeper than `start`
      are read. */
  method FollowFailLinks(children: seq<map<char, nat>>, ghost paths: seq<String>, ghost parent: seq<nat>,
                         links: seq<int>, start: nat, c: char) returns (f: int)
    requires IsTree(children, paths, parent) && |links| == |paths| && start < |paths|
    requires forall i {:trigger LinkOk(paths, links, i)} ::
      0 <= i < |paths| && |paths[i]| <= |paths[start]| ==> LinkOk(paths, links, i)
    ensures f == NONE || (0 <= f < |paths| && c in children[f])
    ensures f == NONE ==> LongestSuffixIn(Spelled(paths), paths[start] + [c]) == []
    ensures f != NONE ==> LongestSuffixIn(Spelled(paths), paths[start] + [c]) == paths[f] + [c]
  {
    PrefixClosedPaths(children, paths, parent);
    ghost var P := Spelled(paths);
    f := start;
    while f != NONE && c !in children[f]
      invariant f == NONE || (0 <= f < |paths| && |paths[f]| <= |paths[start]|)
      invariant f != NONE ==> LongestSuffixIn(P, paths[start] + [c]) == LongestSuffixIn(P, paths[f] + [c])
      invariant f == NONE ==> LongestSuffixIn(P, paths[start] + [c]) == []
      decreases if f == NONE then 0 else |paths[f]| + 1
    {
      ChildIn(children, paths, parent, f, c);
      assert LinkOk(paths, links, f);
      if f == ROOT {
        assert LongestSuffixIn(P, [] + [c]) == LongestSuffixIn(P, []);
      } else {
        FailStep(P, paths[f], c);
      }
      f := links[f];
    }
    if f != NONE {
      ChildIn(children, paths, parent, f, c);
    }
  }

  /** Lines 38-40: queue the root's children and point their failure links
      at the root. */
  method LinkRootChildren(children: seq<map<char, nat>>, ghost parent: seq<nat>, links: seq<int>)
    returns (links': seq<int>, queue: seq<nat>)
    requires IsChildrenOf(children, parent, ROOT) && |links| == |children|
    ensures |links'| == |children|
    ensures forall i :: 0 <= i < |children| ==>
      links'[i] == if i != ROOT && parent[i] == ROOT then ROOT else links[i]
    ensures forall j :: j in queue <==> 0 < j < |children| && parent[j] == ROOT
    ensures forall a, b :: 0 <= a < b < |queue| ==> queue[a] != queue[b]
  {
    var edges := KeyList(children[ROOT]);
    links', queue := links, [];
    for k := 0 to |edges|
      invariant |queue| == k
      invariant forall a :: 0 <= a < k ==> queue[a] == children[ROOT][edges[a]]
      invariant |links'| == |children|
      invariant forall i :: 0 <= i < |children| ==> links'[i] == if i in queue then ROOT else links[i]
    {
      var node := children[ROOT][edges[k]];
      queue := queue + [node];
      links' := links'[node := ROOT];
    }
    forall j | 0 < j < |children| && parent[j] == ROOT ensures j in queue {
      var c :| c in children[ROOT] && children[ROOT][c] == j;
      var a :| 0 <= a < |edges| && edges[a] == c;
      assert queue[a] == j;
    }
  }

  /** Lines 50-55 for the child of `u` by `c`: the node the child's failure
      link points at, found by walking the failure links from `u`'s failure
      node (the root when the walk finds none). It spells the longest proper
      suffix of the child's path that is a trie path, and its output set is
      already final. */
  method FailureTarget(children: seq<map<char, nat>>, ghost paths: seq<String>, ghost parent: seq<nat>,
                       ghost K: set<String>, links: seq<int>, ghost outs: seq<set<String>>, u: nat, c: char)
    returns (target: nat)
    requires IsTree(children, paths, parent) && |links| == |paths| && |outs| == |paths|
    requires 0 < u < |paths| && c in children[u]
    requires forall i {:trigger FinalAt(K, paths, links, outs, i)} ::
      0 <= i < |paths| && |paths[i]| <= |paths[u]| ==> FinalAt(K, paths, links, outs, i)
    ensures target < |paths| && |paths[target]| <= |paths[u]|
    ensures paths[target] == LongestSuffixIn(Spelled(paths), paths[children[u][c]][1..])
    ensures outs[target] == Outputs(K, Spelled(paths), paths[target])
  {
    PrefixClosedPaths(children, paths, parent);
    ghost var P := Spelled(paths);
    var child := children[u][c];
    ParentOfChild(children, paths, parent, u, c);
    assert FinalAt(K, paths, links, outs, u);
    assert |paths[links[u]]| < |paths[u]|;
    forall i | 0 <= i < |paths| && |paths[i]| <= |paths[links[u]]| ensures LinkOk(paths, links, i) {
      assert FinalAt(K, paths, links, outs, i);
    }
    var failureNode := FollowFailLinks(children, paths, parent, links, links[u], c);
    ChildFailure(P, paths[u], c, paths[links[u]]);
    ghost var goal := LongestSuffixIn(P, paths[links[u]] + [c]);
    assert goal == LongestSuffixIn(P, paths[child][1..]);
    if failureNode != NONE {
      target := children[failureNode][c];
      ParentOfChild(children, paths, parent, failureNode, c);
      assert paths[target] == goal;
    } else {
      target := ROOT;
      assert paths[target] == goal;
    }
    assert FinalAt(K, paths, links, outs, target);
  }

  /** Lines 47-57 for the child of `u` by `c`: its failure link is set to
      the failure target and the target's output set is added to its own,
      which makes the child final; no other node changes. */
  method LinkChild(children: seq<map<char, nat>>, ghost paths: seq<String>, ghost parent: seq<nat>,
                   ghost K: set<String>, links: seq<int>, outs: seq<set<String>>, u: nat, c: char)
    returns (links': seq<int>, outs': seq<set<String>>)
    requires IsTree(children, paths, parent) && |links| == |paths| && |outs| == |paths|
    requires 0 < u < |paths| && c in children[u]
    requires forall i {:trigger FinalAt(K, paths, links, outs, i)} ::
      0 <= i < |paths| && |paths[i]| <= |paths[u]| ==> FinalAt(K, paths, links, outs, i)
    requires outs[children[u][c]] == LocalOutput(K, paths[children[u][c]])
    ensures |links'| == |paths| && |outs'| == |paths|
    ensures forall i :: 0 <= i < |paths| && i != children[u][c] ==> links'[i] == links[i] && outs'[i] == outs[i]
    ensures forall i {:trigger FinalAt(K, paths, links', outs', i)} ::
      0 <= i < |paths| && i != children[u][c] && FinalAt(K, paths, links, outs, i) ==>
      FinalAt(K, paths, links', outs', i)
    ensures FinalAt(K, paths, links', outs', children[u][c])
  {
    var child := children[u][c];
    ParentOfChild(children, paths, parent, u, c);
    assert |paths[u]| > 0 by { assert parent[u] < |paths|; }
    var target := FailureTarget(children, paths, parent, K, links, outs, u, c);
    assert paths[ROOT] in paths;
    ChildFinal(K, paths, links, outs, child, target);
    links' := links[child := target];
    outs' := outs[child := outs[child] + outs[target]];
    forall i | 0 <= i < |paths| && i != child && FinalAt(K, paths, links, outs, i)
      ensures FinalAt(K, paths, links', outs', i)
    {
      FinalAtFrame(K, paths, links, outs, links', outs', i);
    }
  }

  /** The inner loop of lines 46-57 over the edges of `u` listed in
      `edges`: the child along each is appended to the queue and made
      final; no node that does not hang from `u` changes. */
  method LinkEdges(children: seq<map<char, nat>>, ghost paths: seq<String>, ghost parent: seq<nat>,
                   ghost K: set<String>, links: seq<int>, outs: seq<set<String>>, u: nat,
                   edges: seq<char>, queue: seq<nat>)
    returns (links': seq<int>, outs': seq<set<String>>, queue': seq<nat>)
    requires IsTree(children, paths, parent) && |links| == |paths| && |outs| == |paths|
    requires 0 < u < |paths|
    requires forall i {:trigger FinalAt(K, paths, links, outs, i)} ::
      0 <= i < |paths| && |paths[i]| <= |paths[u]| ==> FinalAt(K, paths, links, outs, i)
    requires forall j {:trigger outs[j]} :: 0 < j < |paths| && parent[j] == u ==>
      outs[j] == LocalOutput(K, paths[j])
    requires forall a :: 0 <= a < |edges| ==> edges[a] in children[u]
    requires forall a, b :: 0 <= a < b < |edges| ==> edges[a] != edges[b]
    ensures |links'| == |paths| && |outs'| == |paths|
    ensures |queue'| == |queue| + |edges| && queue'[..|queue|] == queue
    ensures forall a :: 0 <= a < |edges| ==> queue'[|queue| + a] == children[u][edges[a]]
    ensures forall a :: 0 <= a < |edges| ==> FinalAt(K, paths, links', outs', children[u][edges[a]])
    ensures forall i :: 0 <= i < |paths| && (i == ROOT || parent[i] != u) ==>
      links'[i] == links[i] && outs'[i] == outs[i]
  {
    links', outs', queue' := links, outs, queue;
    for k := 0 to |edges|
      invariant |queue'| == |queue| + k && queue'[..|queue|] == queue
      invariant forall a :: 0 <= a < k ==> queue'[|queue| + a] == children[u][edges[a]]
      invariant |links'| == |paths| && |outs'| == |paths|
      invariant forall i :: 0 <= i < |paths| && (i == ROOT || parent[i] != u) ==>
        links'[i] == links[i] && outs'[i] == outs[i]
      invariant forall a :: k <= a < |edges| ==> outs'[children[u][edges[a]]] == outs[children[u][edges[a]]]
      invariant forall a :: 0 <= a < k ==> FinalAt(K, paths, links', outs', children[u][edges[a]])
      invariant forall i {:trigger FinalAt(K, paths, links', outs', i)} ::
        0 <= i < |paths| && |paths[i]| <= |paths[u]| ==> FinalAt(K, paths, links', outs', i)
    {
      var c := edges[k];
      var child := children[u][c];
      ParentOfChild(children, paths, parent, u, c);
      DistinctEdges(children, paths, parent, u, c);
      links', outs' := LinkChild(children, paths, parent, K, links', outs', u, c);
      queue' := queue' + [child];
    }
  }

  /** The inner loop of lines 46-57: every child of `u` is appended to the
      queue once and made final; nothing else changes. */
  method ProcessChildren(children: seq<map<char, nat>>, ghost paths: seq<String>, ghost parent: seq<nat>,
                         ghost K: set<String>, links: seq<int>, outs: seq<set<String>>, u: nat, queue: seq<nat>)
    returns (links': seq<int>, outs': seq<set<String>>, queue': seq<nat>)
    requires IsTree(children, paths, parent) && |links| == |paths| && |outs| == |paths|
    requires 0 < u < |paths|
    requires forall i {:trigger FinalAt(K, paths, links, outs, i)} ::
      0 <= i < |paths| && |paths[i]| <= |paths[u]| ==> FinalAt(K, paths, links, outs, i)
    requires forall j {:trigger outs[j]} :: 0 < j < |paths| && parent[j] == u ==>
      outs[j] == LocalOutput(K, paths[j])
    ensures |links'| == |paths| && |outs'| == |paths|
    ensures |queue'| >= |queue| && queue'[..|queue|] == queue
    ensures forall j :: j in queue'[|queue|..] <==> 0 < j < |paths| && parent[j] == u
    ensures forall a, b :: |queue| <= a < b < |queue'| ==> queue'[a] != queue'[b]
    ensures forall j :: 0 < j < |paths| && parent[j] == u ==> FinalAt(K, paths, links', outs', j)
    ensures forall i :: 0 <= i < |paths| && (i == ROOT || parent[i] != u) ==>
      links'[i] == links[i] && outs'[i] == outs[i]
  {
    var edges := KeyList(children[u]);
    links', outs', queue' := LinkEdges(children, paths, parent, K, links, outs, u, edges, queue);
    ghost var added := queue'[|queue|..];
    TreeChildren(children, paths, parent, u);
    EdgeTargets(children, parent, u, edges, added);
    forall j | 0 < j < |paths| && parent[j] == u ensures FinalAt(K, paths, links', outs', j) {
      var a :| 0 <= a < |added| && added[a] == j;
    }
  }

  /** One pass of the outer loop of lines 44-57: pop `queue[head]`, make
      its children final and queue them. */
  method BfsRound(children: seq<map<char, nat>>, ghost paths: seq<String>, ghost parent: seq<nat>,
                  ghost K: set<String>, links: seq<int>, outs: seq<set<String>>, queue: seq<nat>, head: nat)
    returns (links': seq<int>, outs': seq<set<String>>, queue': seq<nat>)
    requires IsTree(children, paths, parent) && ParentsShallower(paths, parent)
    requires |links| == |paths| && |outs| == |paths|
    requires IsBfsQueue(paths, parent, queue, head) && head < |queue|
    requires forall i {:trigger FinalAt(K, paths, links, outs, i)} ::
      0 <= i < |paths| && (i == ROOT || i in queue) ==> FinalAt(K, paths, links, outs, i)
    requires forall j {:trigger outs[j]} :: 0 < j < |paths| && j !in queue ==>
      outs[j] == LocalOutput(K, paths[j])
    ensures |links'| == |paths| && |outs'| == |paths|
    ensures IsBfsQueue(paths, parent, queue', head + 1)
    ensures Unseen(|paths|, queue') < Unseen(|paths|, queue)
         || (Unseen(|paths|, queue') == Unseen(|paths|, queue) && |queue'| == |queue|)
    ensures forall i {:trigger FinalAt(K, paths, links', outs', i)} ::
      0 <= i < |paths| && (i == ROOT || i in queue') ==> FinalAt(K, paths, links', outs', i)
    ensures forall j {:trigger outs'[j]} :: 0 < j < |paths| && j !in queue' ==>
      outs'[j] == LocalOutput(K, paths[j])
  {
    var u := queue[head];
    forall i | 0 <= i < |paths| && |paths[i]| <= |paths[u]| ensures FinalAt(K, paths, links, outs, i) {
      if i != ROOT {
        assert i in queue;
      }
    }
    forall j | 0 < j < |paths| && parent[j] == u ensures outs[j] == LocalOutput(K, paths[j]) {
      BfsUnqueued(paths, parent, queue, head, j);
    }
    links', outs', queue' := ProcessChildren(children, paths, parent, K, links, outs, u, queue);
    BfsStep(children, paths, parent, queue, head, queue');
    QueueFinal(paths, parent, K, queue, head, queue', links, outs, links', outs');
  }

  /** `build_failure_links` on the arena's values: starting from the links
      and output sets `build_trie` leaves, every node ends up final. The
      list `queue` with `pop(0)` is modelled by the sequence of every node
      ever queued and the index `head` of the next one to pop. */
  method FailureLinks(children: seq<map<char, nat>>, ghost paths: seq<String>, ghost parent: seq<nat>,
                      ghost K: set<String>, fail: seq<int>, output: seq<set<String>>)
    returns (links: seq<int>, outs: seq<set<String>>)
    requires IsTree(children, paths, parent) && IsUnlinked(output, fail, paths, K)
    ensures |links| == |paths| && |outs| == |paths|
    ensures forall i :: 0 <= i < |paths| ==> FinalAt(K, paths, links, outs, i)
  {
    TreeChildren(children, paths, parent, ROOT);
    var queue;
    links, queue := LinkRootChildren(children, parent, fail);
    outs := output;
    PrefixClosedPaths(children, paths, parent);
    forall i | 0 <= i < |paths| && |paths[i]| <= 1 ensures FinalAt(K, paths, links, outs, i) {
      ShallowFinal(children, paths, parent, K, fail, output, links, i);
    }
    BfsStart(children, paths, parent, queue);
    TreeParentsShallower(children, paths, parent);
    var head := 0;
    while head < |queue|
      invariant |links| == |paths| && |outs| == |paths|
      invariant IsBfsQueue(paths, parent, queue, head)
      invariant forall i {:trigger FinalAt(K, paths, links, outs, i)} ::
        0 <= i < |paths| && (i == ROOT || i in queue) ==> FinalAt(K, paths, links, outs, i)
      invariant forall j {:trigger outs[j]} :: 0 < j < |paths| && j !in queue ==>
        outs[j] == LocalOutput(K, paths[j])
      decreases Unseen(|paths|, queue), |queue| - head
    {
      links, outs, queue := BfsRound(children, paths, parent, K, links, outs, queue, head);
      head := head + 1;
    }
    forall i | 0 <= i < |paths| ensures FinalAt(K, paths, links, outs, i) {
      if i != ROOT {
        BfsDone(paths, parent, children, queue, i);
      }
    }
  }

  /** The nodes of one trie. Node `i` is the `TrieNode` whose attributes are
      `children[i]`, `isEndOfWord[i]`, `output[i]` and `fail[i]`; a child or
      failure reference is the arena index of the node it points to. The
      ghost fields record, for each node, the string it spells from the root
      and the node it hangs from, and the keywords inserted so far. */
  class Trie {
    var children: seq<map<char, nat>>
    var isEndOfWord: seq<bool>
    var output: seq<set<String>>
    var fail: seq<int>

    ghost var paths: seq<String>
    ghost var parent: seq<nat>
    ghost var keywords: set<String>

    /** The strings spelled by the nodes: the trie paths. */
    ghost function PathSet(): set<String>
      reads this`paths
    {
      Spelled(paths)
    }

    ghost predicate Tree()
      reads this`children, this`paths, this`parent
    {
      IsTree(children, paths, parent)
    }

    /** A node is marked as the end of a word exactly when it spells an
        inserted keyword, and every keyword is spelled by some node. */
    ghost predicate Marks()
      reads this`isEndOfWord, this`paths, this`keywords
    {
      IsMarked(isEndOfWord, paths, keywords)
    }

    ghost predicate TrieValid()
      reads this
    {
      Tree() && Marks() && |output| == |paths| && |fail| == |paths|
    }

    /** The state `build_trie` leaves: no failure links yet, and each node's
        output holds only the keyword it spells itself. */
    ghost predicate Unlinked()
      reads this`output, this`fail, this`paths, this`keywords
    {
      IsUnlinked(output, fail, paths, keywords)
    }

    /** The state `build_failure_links` leaves: every node's failure link
        and output set are final. */
    ghost predicate Linked()
      reads this
    {
      && |fail| == |paths| && |output| == |paths|
      && forall i :: 0 <= i < |paths| ==> FinalAt(keywords, paths, fail, output, i)
    }

    /** A fresh trie holding only the root (`TrieNode()` in `build_trie`). */
    constructor ()
      ensures TrieValid() && Unlinked()
      ensures keywords == {} && PathSet() == {[]}
    {
      children, isEndOfWord, output, fail := [map[]], [false], [{}], [NONE];
      paths, parent, keywords := [[]], [ROOT], {};
      new;
      assert PathSet() == {[]} by {
        assert forall p :: p in paths <==> p == [];
      }
    }

    /** The node reached from `node` by following the edges spelling `w`, or
        NONE when one of them is missing. */
    function Follow(node: nat, w: String): (r: int)
      reads this`children
      requires EdgesInRange(children) && node < |children|
      ensures r == NONE || 0 <= r < |children|
      decreases |w|
    {
      if w == [] then node
      else if w[0] in children[node] then Follow(children[node][w[0]], w[1..])
      else NONE
    }

    /** The edges spell exactly the trie paths: following `w` from node `i`
        succeeds exactly when `paths[i] + w` is a trie path, and then ends
        at the node spelling it. */
    lemma {:induction false} FollowSpells(i: nat, w: String)
      requires Tree() && i < |paths|
      ensures Follow(i, w) != NONE <==> paths[i] + w in PathSet()
      ensures Follow(i, w) != NONE ==> paths[Follow(i, w)] == paths[i] + w
      decreases |w|
    {
      if w == [] {
        assert paths[i] + w == paths[i];
      } else {
        ChildIn(children, paths, parent, i, w[0]);
        assert paths[i] + w == paths[i] + [w[0]] + w[1..];
        if w[0] in children[i] {
          FollowSpells(children[i][w[0]], w[1..]);
        } else {
          PrefixClosedPaths(children, paths, parent);
          assert (paths[i] + w)[..|paths[i]| + 1] == paths[i] + [w[0]];
        }
      }
    }

    /** The children relation is a tree: the root has no incoming edge, every
        edge enters a node one character deeper than where it starts, and
        each other node is entered by exactly one (parent, character) edge. */
    lemma TreeShape(i: nat, c: char, i': nat, c': char)
      requires Tree() && i < |children| && i' < |children|
      requires c in children[i] && c' in children[i']
      ensures children[i][c] != ROOT
      ensures |paths[children[i][c]]| == |paths[i]| + 1
      ensures children[i][c] == children[i'][c'] ==> i == i' && c == c'
    {
      if children[i][c] == children[i'][c'] {
        var j := children[i][c];
        assert paths[i] + [c] == paths[i'] + [c'];
        assert paths[i] == (paths[i] + [c])[..|paths[i]|];
        assert paths[i'] == (paths[i'] + [c'])[..|paths[i']|];
      }
    }

    /** After `build_trie`, the edges from the root spell every keyword,
        and the node they reach is marked as the end of a word and holds
        the keyword in its output. */
    lemma KeywordStored(k: String)
      requires TrieValid() && Unlinked() && k in keywords
      ensures Follow(ROOT, k) != NONE
      ensures isEndOfWord[Follow(ROOT, k)] && k in output[Follow(ROOT, k)]
    {
      FollowSpells(ROOT, k);
      assert paths[ROOT] + k == k;
    }

    /** After `build_failure_links`: the root has no failure link, a child
        of the root links to the root, and every other node links to the
        node spelling the longest proper suffix of its path among the trie
        paths, which is strictly shallower. */
    lemma FailLinkShape(i: nat)
      requires TrieValid() && Linked() && i < |paths|
      ensures i == ROOT ==> fail[i] == NONE
      ensures i != ROOT ==> 0 <= fail[i] < |paths| && |paths[fail[i]]| < |paths[i]|
      ensures i != ROOT ==> IsSuffix(paths[fail[i]], paths[i])
      ensures i != ROOT ==> forall j :: 0 <= j < |paths| && IsSuffix(paths[j], paths[i]) && j != i ==>
        |paths[j]| <= |paths[fail[i]]|
      ensures i != ROOT && parent[i] == ROOT ==> fail[i] == ROOT
    {
      assert FinalAt(keywords, paths, fail, output, i);
      if i != ROOT {
        var x := paths[i];
        LongestSuffixIsLongest(PathSet(), x[1..]);
        TailIsSuffix(x);
        SuffixTrans(paths[fail[i]], x[1..], x);
        forall j | 0 <= j < |paths| && IsSuffix(paths[j], x) && j != i ensures |paths[j]| <= |paths[fail[i]]| {
          SuffixOfTail(paths[j], x);
        }
        if parent[i] == ROOT {
          assert |x| == 1 by { assert paths[parent[i]] == x[..|x| - 1]; }
          assert paths[fail[i]] == paths[ROOT];
        }
      }
    }

    /** After `build_failure_links`, a node's output set holds exactly the
        non-empty keywords that are suffixes of its path; at depth two or more it
        is the node's own keyword together with its failure node's output.
        The empty keyword, when present, is in the root's output and in
        that of a node at depth two or more whose last character alone is
        not a trie path. */
    lemma OutputIsSuffixes(i: nat)
      requires TrieValid() && Linked() && i < |paths|
      ensures forall k :: k != [] ==> (k in output[i] <==> k in keywords && IsSuffix(k, paths[i]))
      ensures |paths[i]| >= 2 ==>
        0 <= fail[i] < |paths| && output[i] == LocalOutput(keywords, paths[i]) + output[fail[i]]
      ensures [] in output[i] <==>
        [] in keywords && (i == ROOT || (|paths[i]| >= 2 && [paths[i][|paths[i]| - 1]] !in PathSet()))
    {
      var K, P, x := keywords, PathSet(), paths[i];
      assert FinalAt(K, paths, fail, output, i);
      PrefixClosedPaths(children, paths, parent);
      assert K <= P;
      forall k | k != [] ensures k in output[i] <==> k in K && IsSuffix(k, x) {
        OutputsOfKeyword(K, P, x, k);
      }
      if |x| >= 2 {
        assert FinalAt(K, paths, fail, output, fail[i]);
      }
      OutputsOfEmptyKeyword(K, P, x);
      if x == [] {
        assert LastIndex(paths)[x] == i;
      }
    }

    /** A fresh node with no children, no keyword and no failure link
        (lines 12-15), hung under `node` by a new edge `c` when `node` has
        no edge `c` yet (line 27). */
    method AddChild(node: nat, c: char) returns (child: nat)
      requires TrieValid() && Unlinked()
      requires node < |paths| && c !in children[node]
      modifies this
      ensures TrieValid() && Unlinked()
      ensures keywords == old(keywords)
      ensures child == old(|paths|) && paths == old(paths) + [old(paths[node]) + [c]]
      ensures PathSet() == old(PathSet()) + {old(paths[node]) + [c]}
    {
      ghost var x := paths[node] + [c];
      var children' := WithLeaf(children, node, c);
      ghost var paths', parent' := paths + [x], parent + [node];
      AddLeaf(children, paths, parent, node, c);
      LeafUnmarked(isEndOfWord, output, fail, paths, keywords, x);
      SpelledSnoc(paths, x);
      child := |children|;
      children, isEndOfWord, output, fail := children', isEndOfWord + [false], output + [{}], fail + [NONE];
      paths, parent := paths', parent';
    }

    /** The child of `node` by `c`, created only when `node` has no edge
        `c` yet (line 27). */
    method SetDefaultChild(node: nat, c: char) returns (child: nat)
      requires TrieValid() && Unlinked() && node < |paths|
      modifies this
      ensures TrieValid() && Unlinked()
      ensures keywords == old(keywords)
      ensures child < |paths| && paths[child] == old(paths[node]) + [c]
      ensures PathSet() == old(PathSet()) + {old(paths[node]) + [c]}
      ensures |paths| >= old(|paths|) && paths[..old(|paths|)] == old(paths)
      ensures old(paths[node]) + [c] in old(PathSet()) ==> unchanged(this)
    {
      ChildIn(children, paths, parent, node, c);
      if c in children[node] {
        child := children[node][c];
      } else {
        child := AddChild(node, c);
      }
    }

    /** Flag the last node of a keyword's walk as the end of a word and add
        the keyword to its output (lines 29-30). */
    method MarkEndOfWord(node: nat, keyword: String)
      requires TrieValid() && Unlinked() && node < |paths| && paths[node] == keyword
      modifies this`isEndOfWord, this`output, this`keywords
      ensures TrieValid() && Unlinked()
      ensures keywords == old(keywords) + {keyword}
      ensures isEndOfWord == old(isEndOfWord)[node := true]
      ensures output == old(output)[node := old(output[node]) + {keyword}]
      ensures keyword in old(keywords) ==> unchanged(this)
    {
      MarkWord(isEndOfWord, output, fail, paths, keywords, node, keyword);
      if keyword in keywords {
        assert isEndOfWord[node := true] == isEndOfWord;
        assert output[node := output[node] + {keyword}] == output;
        assert keywords + {keyword} == keywords;
      }
      isEndOfWord := isEndOfWord[node := true];
      output := output[node := output[node] + {keyword}];
      keywords := keywords + {keyword};
    }

    /** One pass of the outer loop of `build_trie`: walk down from the root
        along `keyword`, creating the nodes that are missing, then mark the
        last node and record the keyword in its output. */
    method Insert(keyword: String)
      requires TrieValid() && Unlinked()
      modifies this
      ensures TrieValid() && Unlinked()
      ensures keywords == old(keywords) + {keyword}
      ensures PathSet() == old(PathSet()) + PrefixesOf(keyword)
      ensures keyword in old(keywords) ==> unchanged(this)
      ensures PrefixesOf(keyword) <= old(PathSet()) ==> paths == old(paths)
    {
      var node: nat := ROOT;
      PrefixesUpToZero(keyword);
      PrefixClosedPaths(children, paths, parent);
      assert paths[ROOT] in paths;
      for j := 0 to |keyword|
        invariant TrieValid() && Unlinked()
        invariant keywords == old(keywords)
        invariant node < |paths| && paths[node] == keyword[..j]
        invariant PathSet() == old(PathSet()) + PrefixesUpTo(keyword, j)
        invariant keyword in old(keywords) ==> unchanged(this)
        invariant PrefixesOf(keyword) <= old(PathSet()) ==> paths == old(paths)
      {
        assert keyword[..j + 1] == paths[node] + [keyword[j]];
        PrefixesUpToStep(keyword, j);
        if keyword in old(keywords) {
          assert keyword[..j + 1] in old(PathSet());
        }
        if PrefixesOf(keyword) <= old(PathSet()) {
          assert keyword[..j + 1] in PrefixesOf(keyword);
        }
        node := SetDefaultChild(node, keyword[j]);
      }
      assert keyword[..|keyword|] == keyword;
      MarkEndOfWord(node, keyword);
    }
  
    /** `build_failure_links(root)`: every node gets its final failure
        link and output set; the trie's shape is left as it is. */
    method BuildFailureLinks()
      requires TrieValid() && Unlinked()
      modifies this`fail, this`output
      ensures TrieValid() && Linked()
    {
      fail, output := FailureLinks(children, paths, parent, keywords, fail, output);
    }

    /** `search_occurrences(database, root, queries)`: scan the text once
        and count, for every keyword, the positions at which the matcher
        reports it; the counts start at 0 for every query. */
    method SearchOccurrences(database: String, queries: seq<String>) returns (occ: map<String, nat>)
      requires TrieValid() && Linked()
      ensures forall k :: k in occ <==> k in queries || ScanCount(keywords, PathSet(), database, k) > 0
      ensures forall k :: k in occ ==> occ[k] == ScanCount(keywords, PathSet(), database, k)
    {
      assert paths[ROOT] in paths;
      var node: nat := ROOT;
      occ := map q | q in queries :: 0;
      for j := 0 to |database|
        invariant node < |paths| && paths[node] == LongestSuffixIn(PathSet(), database[..j])
        invariant Counted(keywords, PathSet(), queries, database[..j], occ)
      {
        node, occ := ScanCharacter(children, paths, parent, keywords, fail, output, queries, database, j, node, occ);
      }
      assert database[..|database|] == database;
    }
  }

  /** One pass of the loop of lines 67-79: read `database[j]`, move to the
      node of the longest trie-path suffix of the text read so far, and add
      one to the count of each keyword in that node's output set. */
  method ScanCharacter(children: seq<map<char, nat>>, ghost paths: seq<String>, ghost parent: seq<nat>,
                       ghost K: set<String>, fail: seq<int>, output: seq<set<String>>,
                       ghost queries: seq<String>, database: String, j: nat, node: nat, occ: map<String, nat>)
    returns (node': nat, occ': map<String, nat>)
    requires IsTree(children, paths, parent) && |fail| == |paths| && |output| == |paths|
    requires forall i :: 0 <= i < |paths| ==> FinalAt(K, paths, fail, output, i)
    requires j < |database| && node < |paths| && paths[node] == LongestSuffixIn(Spelled(paths), database[..j])
    requires Counted(K, Spelled(paths), queries, database[..j], occ)
    ensures node' < |paths| && paths[node'] == LongestSuffixIn(Spelled(paths), database[..j + 1])
    ensures Counted(K, Spelled(paths), queries, database[..j + 1], occ')
  {
    PrefixClosedPaths(children, paths, parent);
    forall i | 0 <= i < |paths| ensures LinkOk(paths, fail, i) {
      assert FinalAt(K, paths, fail, output, i);
    }
    var matched;
    node', matched := Advance(children, paths, parent, fail, node, database[j]);
    occ' := occ;
    if matched {
      assert FinalAt(K, paths, fail, output, node');
      occ' := CountOutputs(occ, output[node']);
    }
    CountedStep(K, Spelled(paths), queries, database, j, occ, occ');
  }

  /** Lines 68-75: from `node`, follow failure links until a node with an
      edge `c` is found and take that edge, or fall back to the root when
      there is none. The node reached spells the longest trie-path suffix
      of `paths[node] + [c]`; `matched` says whether an edge was taken,
      which is when that suffix is not empty. */
  method Advance(children: seq<map<char, nat>>, ghost paths: seq<String>, ghost parent: seq<nat>,
                 links: seq<int>, node: nat, c: char) returns (next: nat, matched: bool)
    requires IsTree(children, paths, parent) && |links| == |paths| && node < |paths|
    requires forall i :: 0 <= i < |paths| ==> LinkOk(paths, links, i)
    ensures next < |paths| && paths[next] == LongestSuffixIn(Spelled(paths), paths[node] + [c])
    ensures matched <==> paths[next] != []
  {
    var f := FollowFailLinks(children, paths, parent, links, node, c);
    if f == NONE {
      next, matched := ROOT, false;
    } else {
      next, matched := children[f][c], true;
      ParentOfChild(children, paths, parent, f, c);
    }
  }

  /** The counts after reading `t`: every query has an entry, and so does
      every string the matcher has reported, each holding how often it was
      reported. */
  ghost predicate Counted(K: set<String>, P: set<String>, queries: seq<String>, t: String, occ: map<String, nat>)
    requires [] in P
  {
    && (forall k :: k in occ <==> k in queries || ScanCount(K, P, t, k) > 0)
    && (forall k :: k in occ ==> occ[k] == ScanCount(K, P, t, k))
  }

  /** Reading `text[j]` moves the matcher to the longest trie-path suffix
      of `text[..j + 1]` and adds one to the count of each string reported
      there, which keeps the counts up to date. */
  lemma CountedStep(K: set<String>, P: set<String>, queries: seq<String>, text: String, j: nat,
                    occ: map<String, nat>, occ': map<String, nat>)
    requires [] in P && PrefixClosed(P) && j < |text| && Counted(K, P, queries, text[..j], occ)
    requires var s := LongestSuffixIn(P, LongestSuffixIn(P, text[..j]) + [text[j]]);
      var found := if s != [] then Outputs(K, P, s) else {};
      && (forall k :: k in occ' <==> k in occ || k in found)
      && (forall k :: k in occ' ==> occ'[k] == (if k in occ then occ[k] else 0) + (if k in found then 1 else 0))
    ensures LongestSuffixIn(P, text[..j + 1]) == LongestSuffixIn(P, LongestSuffixIn(P, text[..j]) + [text[j]])
    ensures Counted(K, P, queries, text[..j + 1], occ')
  {
    assert text[..j + 1] == text[..j] + [text[j]];
    LongestStep(P, text[..j], text[j]);
    assert text[..j + 1][..j] == text[..j];
  }

  /** Lines 78-79: add one to the count of every keyword in `found`; a
      keyword with no entry yet starts from 0. */
  method CountOutputs(occ: map<String, nat>, found: set<String>) returns (occ': map<String, nat>)
    ensures forall k :: k in occ' <==> k in occ || k in found
    ensures forall k :: k in occ' ==>
      occ'[k] == (if k in occ then occ[k] else 0) + (if k in found then 1 else 0)
  {
    occ' := occ;
    var rest := found;
    while rest != {}
      invariant rest <= found
      invariant forall k :: k in occ' <==> k in occ || k in found - rest
      invariant forall k :: k in occ' ==>
        occ'[k] == (if k in occ then occ[k] else 0) + (if k in found - rest then 1 else 0)
      decreases rest
    {
      var q :| q in rest;
      occ' := occ'[q := (if q in occ' then occ'[q] else 0) + 1];
      rest := rest - {q};
    }
  }

  /** `build_trie(keywords)`: a trie whose keywords are the given ones and
      whose nodes spell exactly their prefixes, with no failure links. */
  method BuildTrie(keywords: seq<String>) returns (t: Trie)
    ensures fresh(t) && t.TrieValid() && t.Unlinked()
    ensures t.keywords == Spelled(keywords)
    ensures t.PathSet() == {[]} + Prefixes(t.keywords)
  {
    t := new Trie();
    assert Prefixes({}) == {};
    for i := 0 to |keywords|
      invariant fresh(t) && t.TrieValid() && t.Unlinked()
      invariant t.keywords == Spelled(keywords[..i])
      invariant t.PathSet() == {[]} + Prefixes(t.keywords)
    {
      PrefixesAdd(t.keywords, keywords[i]);
      SpelledPrefix(keywords, i);
      t.Insert(keywords[i]);
    }
    assert keywords[..|keywords|] == keywords;
  }

  /** Lines 91-96 of `count_occurrences`, without the files: build the
      automaton from the queries and scan the database. Every query gets an
      entry and nothing else does; a non-empty query's count is its number
      of (possibly overlapping) occurrences in the database. The empty
      query, when listed, is counted once for each character after which
      the matcher stands at a node other than the root although that
      character on its own is not a trie path (`EmptyKeywordCount`). */
  method CountOccurrences(database: String, queries: seq<String>) returns (occ: map<String, nat>)
    ensures forall k :: k in occ <==> k in queries
    ensures forall k :: k in occ && k != [] ==> occ[k] == OverlapCount(database, k)
    ensures [] in occ ==>
      occ[[]] == EmptyKeywordCount({[]} + Prefixes(set q | q in queries), database)
  {
    var t := BuildTrie(queries);
    t.BuildFailureLinks();
    occ := t.SearchOccurrences(database, queries);
    ghost var K, P := t.keywords, t.PathSet();
    assert [] in P;
    forall k | k !in queries ensures ScanCount(K, P, database, k) == 0 {
      ScanCountOfNonKeyword(K, P, database, k);
    }
    forall k | k in occ && k != [] ensures occ[k] == OverlapCount(database, k) {
      assert K <= P by {
        forall w | w in K ensures w in P {
          assert w[..|w|] == w;
        }
      }
      ScanCountOfKeyword(K, P, database, k);
    }
    if [] in occ {
      ScanCountOfEmptyKeyword(K, P, database);
    }
  }
}
