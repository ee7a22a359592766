/**
 * `MyNode`: a node holding an `id` and an ordered array of child nodes.
 * Nodes are objects compared by reference (`===`), so the model keeps
 * them in a heap: a map from references to the node each one holds.
 * The recursive queries only terminate on graphs without cycles; they
 * take a ghost `rank` that strictly decreases from a node to each child,
 * the witness that the part of the heap they walk is acyclic.
 */
module MyGraphs {
  import opened Wrappers
  import opened JsMaps

  /** A reference to a `MyNode` object. */
  type Ref = nat

  /** The fields of a `MyNode`: `data.id` and `children`. */
  datatype Node = Node(id: string, children: seq<Ref>)

  /** Every child is in the heap and has a lower rank than its parent. */
  ghost predicate Ranked(g: map<Ref, Node>, rank: map<Ref, nat>)
  {
    forall n :: n in g ==> n in rank && forall c :: c in g[n].children ==> c in g && c in rank && rank[c] < rank[n]
  }

  /** A sequence of nodes, each a child of the one before it. */
  ghost predicate IsPath(g: map<Ref, Node>, p: seq<Ref>)
  {
    |p| >= 1 && p[0] in g && forall k :: 0 <= k < |p| - 1 ==> p[k] in g && p[k + 1] in g[p[k]].children
  }

  /** `target` is `n` or is reachable from one of its children. */
  ghost predicate Reaches(g: map<Ref, Node>, rank: map<Ref, nat>, n: Ref, target: Ref)
    requires Ranked(g, rank) && n in g
    decreases rank[n]
  {
    n == target || exists c :: c in g[n].children && Reaches(g, rank, c, target)
  }

  // ----- findShortestPathToNode -----

  /** `a.length < b.length ? a : b`: the step of the `reduce`. */
  function Shorter(a: seq<Ref>, b: seq<Ref>): seq<Ref>
  {
    if |a| < |b| then a else b
  }

  /** `paths.reduce(...)`: a left fold keeping the earlier path only when
      it is strictly shorter. */
  function Reduce(paths: seq<seq<Ref>>): seq<Ref>
    requires paths != []
  {
    if |paths| == 1 then paths[0] else Shorter(Reduce(paths[..|paths| - 1]), paths[|paths| - 1])
  }

  /** `paths[k]` is of minimum length and no later path is as short. */
  ghost predicate LastShortestAt(paths: seq<seq<Ref>>, k: int)
  {
    0 <= k < |paths|
    && (forall j :: 0 <= j < k ==> |paths[k]| <= |paths[j]|)
    && (forall j :: k < j < |paths| ==> |paths[k]| < |paths[j]|)
  }

  /** The reduction returns a path of minimum length, the last one among
      those of that length. */
  lemma {:induction false} ReduceLastShortest(paths: seq<seq<Ref>>)
    requires paths != []
    ensures exists k :: LastShortestAt(paths, k) && Reduce(paths) == paths[k]
  {
    if |paths| > 1 {
      var init := paths[..|paths| - 1];
      ReduceLastShortest(init);
      var k :| LastShortestAt(init, k) && Reduce(init) == init[k];
      if |init[k]| < |paths[|paths| - 1]| {
        assert LastShortestAt(paths, k) && Reduce(paths) == paths[k];
      } else {
        assert LastShortestAt(paths, |paths| - 1) && Reduce(paths) == paths[|paths| - 1];
      }
    } else {
      assert LastShortestAt(paths, 0);
    }
  }

  /** `findShortestPathToNode(target)` from `n`: `[n]` when `n` is the
      target, otherwise the reduction of the paths through the children
      that reach it, `null` when none does. */
  function FindShortestPath(g: map<Ref, Node>, ghost rank: map<Ref, nat>, n: Ref, target: Ref): Option<seq<Ref>>
    requires Ranked(g, rank) && n in g
    decreases rank[n], 1, 0
  {
    if n == target then Some([n])
    else
      var paths := Candidates(g, rank, n, target, |g[n].children|);
      if paths == [] then None else Some(Reduce(paths))
  }

  /** The non-null `[this, ...path]` of the first `i` children, in order. */
  function Candidates(g: map<Ref, Node>, ghost rank: map<Ref, nat>, n: Ref, target: Ref, i: nat): seq<seq<Ref>>
    requires Ranked(g, rank) && n in g && i <= |g[n].children|
    decreases rank[n], 0, i
  {
    if i == 0 then []
    else
      var c := g[n].children[i - 1];
      var rest := Candidates(g, rank, n, target, i - 1);
      match FindShortestPath(g, rank, c, target)
      case Some(p) => rest + [[n] + p]
      case None => rest
  }

  /** A path found is a path of the graph from `n` to `target`. */
  lemma {:induction false} FoundIsPath(g: map<Ref, Node>, rank: map<Ref, nat>, n: Ref, target: Ref)
    requires Ranked(g, rank) && n in g && FindShortestPath(g, rank, n, target).Some?
    ensures var p := FindShortestPath(g, rank, n, target).value;
            IsPath(g, p) && p[0] == n && p[|p| - 1] == target
    decreases rank[n], 1, 0
  {
    if n != target {
      var paths := Candidates(g, rank, n, target, |g[n].children|);
      ReduceLastShortest(paths);
      CandidatesArePaths(g, rank, n, target, |g[n].children|);
    }
  }

  /** Each candidate is a path from `n` to `target`. */
  lemma {:induction false} CandidatesArePaths(g: map<Ref, Node>, rank: map<Ref, nat>, n: Ref, target: Ref, i: nat)
    requires Ranked(g, rank) && n in g && i <= |g[n].children|
    ensures forall q :: q in Candidates(g, rank, n, target, i) ==> IsPath(g, q) && q[0] == n && q[|q| - 1] == target
    decreases rank[n], 0, i
  {
    if i > 0 {
      var c := g[n].children[i - 1];
      CandidatesArePaths(g, rank, n, target, i - 1);
      var found := FindShortestPath(g, rank, c, target);
      if found.Some? {
        FoundIsPath(g, rank, c, target);
        PathCons(g, n, found.value);
      }
    }
  }

  /** A node followed by a path from one of its children is a path. */
  lemma PathCons(g: map<Ref, Node>, n: Ref, p: seq<Ref>)
    requires n in g && IsPath(g, p) && p[0] in g[n].children
    ensures IsPath(g, [n] + p)
  {
    var q := [n] + p;
    forall k | 0 <= k < |q| - 1
      ensures q[k] in g && q[k + 1] in g[q[k]].children
    {
      if k > 0 {
        assert q[k] == p[k - 1] && q[k + 1] == p[k];
      }
    }
  }

  /** The candidates hold the path through every child that reaches the
      target. */
  lemma {:induction false} CandidatesHold(g: map<Ref, Node>, rank: map<Ref, nat>, n: Ref, target: Ref, i: nat, j: nat)
    requires Ranked(g, rank) && n in g && j < i <= |g[n].children|
    requires FindShortestPath(g, rank, g[n].children[j], target).Some?
    ensures [n] + FindShortestPath(g, rank, g[n].children[j], target).value in Candidates(g, rank, n, target, i)
    decreases i
  {
    if j < i - 1 {
      CandidatesHold(g, rank, n, target, i - 1, j);
    }
  }

  /** `null` exactly when the target cannot be reached. */
  lemma {:induction false} NotFoundIffUnreachable(g: map<Ref, Node>, rank: map<Ref, nat>, n: Ref, target: Ref)
    requires Ranked(g, rank) && n in g
    ensures FindShortestPath(g, rank, n, target).Some? <==> Reaches(g, rank, n, target)
    decreases rank[n]
  {
    if n != target {
      var kids := g[n].children;
      var paths := Candidates(g, rank, n, target, |kids|);
      if Reaches(g, rank, n, target) {
        var c :| c in kids && Reaches(g, rank, c, target);
        var j :| 0 <= j < |kids| && kids[j] == c;
        NotFoundIffUnreachable(g, rank, c, target);
        CandidatesHold(g, rank, n, target, |kids|, j);
      }
      if paths != [] {
        var q := paths[0];
        CandidateFromChild(g, rank, n, target, |kids|, q);
        var c :| c in kids && FindShortestPath(g, rank, c, target).Some?;
        NotFoundIffUnreachable(g, rank, c, target);
      }
    }
  }

  /** Every candidate comes from a child that reaches the target. */
  lemma {:induction false} CandidateFromChild(g: map<Ref, Node>, rank: map<Ref, nat>, n: Ref, target: Ref, i: nat, q: seq<Ref>)
    requires Ranked(g, rank) && n in g && i <= |g[n].children| && q in Candidates(g, rank, n, target, i)
    ensures exists c :: c in g[n].children && FindShortestPath(g, rank, c, target).Some?
    decreases i
  {
    var c := g[n].children[i - 1];
    if FindShortestPath(g, rank, c, target).None? || q in Candidates(g, rank, n, target, i - 1) {
      if q in Candidates(g, rank, n, target, i - 1) {
        CandidateFromChild(g, rank, n, target, i - 1, q);
      }
    }
  }

  /** No path from `n` to `target` is shorter than the one found. */
  lemma {:induction false} FoundIsShortest(g: map<Ref, Node>, rank: map<Ref, nat>, n: Ref, target: Ref, q: seq<Ref>)
    requires Ranked(g, rank) && n in g
    requires IsPath(g, q) && q[0] == n && q[|q| - 1] == target
    ensures FindShortestPath(g, rank, n, target).Some?
    ensures |FindShortestPath(g, rank, n, target).value| <= |q|
    decreases rank[n]
  {
    if n != target {
      var kids := g[n].children;
      assert |q| > 1;
      var c := q[1];
      var j :| 0 <= j < |kids| && kids[j] == c;
      var rest := q[1..];
      assert IsPath(g, rest) by {
        forall k | 0 <= k < |rest| - 1
          ensures rest[k] in g && rest[k + 1] in g[rest[k]].children
        {
          assert rest[k] == q[k + 1] && rest[k + 1] == q[k + 2];
        }
      }
      FoundIsShortest(g, rank, c, target, rest);
      CandidatesHold(g, rank, n, target, |kids|, j);
      var paths := Candidates(g, rank, n, target, |kids|);
      ReduceLastShortest(paths);
      var via := [n] + FindShortestPath(g, rank, c, target).value;
      var m :| 0 <= m < |paths| && paths[m] == via;
      var k :| LastShortestAt(paths, k) && Reduce(paths) == paths[k];
      assert |paths[k]| <= |paths[m]|;
    }
  }

  /** On ties the later child's path wins: the path found is a candidate
      no earlier candidate beats and every later candidate is longer than. */
  lemma FoundIsLastShortest(g: map<Ref, Node>, rank: map<Ref, nat>, n: Ref, target: Ref)
    requires Ranked(g, rank) && n in g && n != target && FindShortestPath(g, rank, n, target).Some?
    ensures exists k :: LastShortestAt(Candidates(g, rank, n, target, |g[n].children|), k)
                        && FindShortestPath(g, rank, n, target).value == Candidates(g, rank, n, target, |g[n].children|)[k]
  {
    var paths := Candidates(g, rank, n, target, |g[n].children|);
    assert FindShortestPath(g, rank, n, target) == Some(Reduce(paths));
    ReduceLastShortest(paths);
    var k :| LastShortestAt(paths, k) && Reduce(paths) == paths[k];
  }

  // ----- iter, findNodeById, getLinks -----

  /** `[...n.iter()]`: `n`, then each child's nodes in turn (preorder). */
  function Preorder(g: map<Ref, Node>, ghost rank: map<Ref, nat>, n: Ref): (r: seq<Ref>)
    requires Ranked(g, rank) && n in g
    ensures |r| >= 1 && r[0] == n && forall m :: m in r ==> m in g
    decreases rank[n], 1, 0
  {
    [n] + PreorderFrom(g, rank, n, 0)
  }

  /** The preorder of the children of `n` from the `i`-th on. */
  function PreorderFrom(g: map<Ref, Node>, ghost rank: map<Ref, nat>, n: Ref, i: nat): (r: seq<Ref>)
    requires Ranked(g, rank) && n in g && i <= |g[n].children|
    ensures forall m :: m in r ==> m in g
    decreases rank[n], 0, |g[n].children| - i
  {
    if i == |g[n].children| then []
    else Preorder(g, rank, g[n].children[i]) + PreorderFrom(g, rank, n, i + 1)
  }

  /** The preorder holds exactly the nodes reachable from `n`. */
  lemma {:induction false} PreorderIsReachable(g: map<Ref, Node>, rank: map<Ref, nat>, n: Ref, m: Ref)
    requires Ranked(g, rank) && n in g
    ensures m in Preorder(g, rank, n) <==> Reaches(g, rank, n, m)
    decreases rank[n], 1, 0
  {
    PreorderFromIsReachable(g, rank, n, 0, m);
    if m in PreorderFrom(g, rank, n, 0) {
      var j :| 0 <= j < |g[n].children| && Reaches(g, rank, g[n].children[j], m);
      assert g[n].children[j] in g[n].children;
    }
    if Reaches(g, rank, n, m) && n != m {
      var c :| c in g[n].children && Reaches(g, rank, c, m);
      var j :| 0 <= j < |g[n].children| && g[n].children[j] == c;
    }
  }

  /** The preorder from the `i`-th child on holds exactly the nodes those
      children reach. */
  lemma {:induction false} PreorderFromIsReachable(g: map<Ref, Node>, rank: map<Ref, nat>, n: Ref, i: nat, m: Ref)
    requires Ranked(g, rank) && n in g && i <= |g[n].children|
    ensures m in PreorderFrom(g, rank, n, i) <==>
              exists j :: i <= j < |g[n].children| && Reaches(g, rank, g[n].children[j], m)
    decreases rank[n], 0, |g[n].children| - i
  {
    if i < |g[n].children| {
      var c := g[n].children[i];
      assert c in g[n].children;
      PreorderIsReachable(g, rank, c, m);
      PreorderFromIsReachable(g, rank, n, i + 1, m);
      if exists j :: i <= j < |g[n].children| && Reaches(g, rank, g[n].children[j], m) {
        var j :| i <= j < |g[n].children| && Reaches(g, rank, g[n].children[j], m);
        if j > i {
          assert m in PreorderFrom(g, rank, n, i + 1);
        }
      }
    }
  }

  /** The first node of `s` whose id is `id`. */
  function FirstWithId(g: map<Ref, Node>, s: seq<Ref>, id: string): (r: Option<Ref>)
    requires forall m :: m in s ==> m in g
    ensures r.None? <==> forall k :: 0 <= k < |s| ==> g[s[k]].id != id
    ensures r.Some? ==> exists k :: 0 <= k < |s| && s[k] == r.value && g[s[k]].id == id
                                    && forall j :: 0 <= j < k ==> g[s[j]].id != id
  {
    if s == [] then None
    else if g[s[0]].id == id then Some(s[0])
    else
      var r := FirstWithId(g, s[1..], id);
      assert forall k :: 1 <= k < |s| ==> s[1..][k - 1] == s[k];
      r
  }

  /** The first match in a concatenation is the first in its left part,
      or else the first in its right part. */
  lemma {:induction false} FirstWithIdConcat(g: map<Ref, Node>, a: seq<Ref>, b: seq<Ref>, id: string)
    requires forall m :: m in a + b ==> m in g
    ensures FirstWithId(g, a + b, id) == if FirstWithId(g, a, id).Some? then FirstWithId(g, a, id) else FirstWithId(g, b, id)
  {
    if a != [] {
      assert (a + b)[0] == a[0] && (a + b)[1..] == a[1..] + b;
      FirstWithIdConcat(g, a[1..], b, id);
    } else {
      assert a + b == b;
    }
  }

  /** `findNodeById(id)` from `n`: `n` when it has the id, else the first
      non-null result among the children, in order. */
  function FindNodeById(g: map<Ref, Node>, ghost rank: map<Ref, nat>, n: Ref, id: string): Option<Ref>
    requires Ranked(g, rank) && n in g
    decreases rank[n], 1, 0
  {
    if g[n].id == id then Some(n) else FindInChildren(g, rank, n, id, 0)
  }

  /** The loop over the children of `n` from the `i`-th on. */
  function FindInChildren(g: map<Ref, Node>, ghost rank: map<Ref, nat>, n: Ref, id: string, i: nat): Option<Ref>
    requires Ranked(g, rank) && n in g && i <= |g[n].children|
    decreases rank[n], 0, |g[n].children| - i
  {
    if i == |g[n].children| then None
    else
      match FindNodeById(g, rank, g[n].children[i], id)
      case Some(m) => Some(m)
      case None => FindInChildren(g, rank, n, id, i + 1)
  }

  /** `findNodeById` returns the first node of the preorder with the id,
      `null` when there is none. */
  lemma {:induction false} FindIsFirstInPreorder(g: map<Ref, Node>, rank: map<Ref, nat>, n: Ref, id: string)
    requires Ranked(g, rank) && n in g
    ensures FindNodeById(g, rank, n, id) == FirstWithId(g, Preorder(g, rank, n), id)
    decreases rank[n], 1, 0
  {
    var rest := PreorderFrom(g, rank, n, 0);
    assert Preorder(g, rank, n) == [n] + rest;
    assert Preorder(g, rank, n)[1..] == rest;
    FindFromIsFirst(g, rank, n, id, 0);
  }

  /** The same for the loop over the children from the `i`-th on. */
  lemma {:induction false} FindFromIsFirst(g: map<Ref, Node>, rank: map<Ref, nat>, n: Ref, id: string, i: nat)
    requires Ranked(g, rank) && n in g && i <= |g[n].children|
    ensures FindInChildren(g, rank, n, id, i) == FirstWithId(g, PreorderFrom(g, rank, n, i), id)
    decreases rank[n], 0, |g[n].children| - i
  {
    if i < |g[n].children| {
      var c := g[n].children[i];
      assert c in g[n].children;
      var head, tail := Preorder(g, rank, c), PreorderFrom(g, rank, n, i + 1);
      assert PreorderFrom(g, rank, n, i) == head + tail;
      FindIsFirstInPreorder(g, rank, c, id);
      FindFromIsFirst(g, rank, n, id, i + 1);
      FirstWithIdConcat(g, head, tail, id);
    }
  }

  /** `getLinks()` from `n`: for each child, the edge to it followed by
      the child's own links. */
  function Links(g: map<Ref, Node>, ghost rank: map<Ref, nat>, n: Ref): seq<(Ref, Ref)>
    requires Ranked(g, rank) && n in g
    decreases rank[n], 1, 0
  {
    LinksFrom(g, rank, n, 0)
  }

  /** The links of the children of `n` from the `i`-th on. */
  function LinksFrom(g: map<Ref, Node>, ghost rank: map<Ref, nat>, n: Ref, i: nat): seq<(Ref, Ref)>
    requires Ranked(g, rank) && n in g && i <= |g[n].children|
    decreases rank[n], 0, |g[n].children| - i
  {
    if i == |g[n].children| then []
    else
      var c := g[n].children[i];
      [(n, c)] + Links(g, rank, c) + LinksFrom(g, rank, n, i + 1)
  }

  /** The links are edges of the graph, one per node of the preorder after
      `n`, whose targets follow the preorder. */
  lemma {:induction false} LinksFollowPreorder(g: map<Ref, Node>, rank: map<Ref, nat>, n: Ref)
    requires Ranked(g, rank) && n in g
    ensures var links, nodes := Links(g, rank, n), Preorder(g, rank, n);
            |links| + 1 == |nodes|
            && forall k :: 0 <= k < |links| ==>
                 links[k].1 == nodes[k + 1] && links[k].0 in g && links[k].1 in g[links[k].0].children
    decreases rank[n], 1, 0
  {
    LinksFromFollowPreorder(g, rank, n, 0);
  }

  /** The same for the children from the `i`-th on. */
  lemma {:induction false} LinksFromFollowPreorder(g: map<Ref, Node>, rank: map<Ref, nat>, n: Ref, i: nat)
    requires Ranked(g, rank) && n in g && i <= |g[n].children|
    ensures var links, nodes := LinksFrom(g, rank, n, i), PreorderFrom(g, rank, n, i);
            |links| == |nodes|
            && forall k :: 0 <= k < |links| ==>
                 links[k].1 == nodes[k] && links[k].0 in g && links[k].1 in g[links[k].0].children
    decreases rank[n], 0, |g[n].children| - i
  {
    if i < |g[n].children| {
      var c := g[n].children[i];
      assert c in g[n].children;
      LinksFollowPreorder(g, rank, c);
      LinksFromFollowPreorder(g, rank, n, i + 1);
      var a, b := Links(g, rank, c), LinksFrom(g, rank, n, i + 1);
      var pa, pb := Preorder(g, rank, c), PreorderFrom(g, rank, n, i + 1);
      var links := [(n, c)] + a + b;
      var nodes := pa + pb;
      forall k | 0 <= k < |links|
        ensures links[k].1 == nodes[k] && links[k].0 in g && links[k].1 in g[links[k].0].children
      {
        if k == 0 {
        } else if k <= |a| {
          assert links[k] == a[k - 1] && nodes[k] == pa[k];
        } else {
          assert links[k] == b[k - 1 - |a|] && nodes[k] == pb[k - |pa|];
        }
      }
    }
  }

  // ----- addChild, clearChildren -----

  /** Every child of every node is in the heap. */
  ghost predicate Closed(g: map<Ref, Node>)
  {
    forall n :: n in g ==> forall c :: c in g[n].children ==> c in g
  }

  /** No two children of `n` share an id. */
  ghost predicate DistinctChildIds(g: map<Ref, Node>, n: Ref)
    requires n in g && forall c :: c in g[n].children ==> c in g
  {
    var kids := g[n].children;
    forall i, j :: 0 <= i < j < |kids| ==> g[kids[i]].id != g[kids[j]].id
  }

  /** Some child of `n` has the id `id`. */
  predicate HasChildWithId(g: map<Ref, Node>, n: Ref, id: string)
    requires n in g && forall c :: c in g[n].children ==> c in g
  {
    exists c :: c in g[n].children && g[c].id == id
  }

  /** The heap after `parent.addChild(child)`: `child` is appended unless
      a child with its id is already there. */
  function WithChild(g: map<Ref, Node>, parent: Ref, child: Ref): (r: map<Ref, Node>)
    requires Closed(g) && parent in g && child in g
    ensures r.Keys == g.Keys && Closed(r)
    ensures forall n :: n in g && n != parent ==> r[n] == g[n]
    ensures r[parent].id == g[parent].id
    ensures HasChildWithId(r, parent, g[child].id)
    ensures r[parent].children == g[parent].children
            || (!HasChildWithId(g, parent, g[child].id) && r[parent].children == g[parent].children + [child])
  {
    var node := g[parent];
    if HasChildWithId(g, parent, g[child].id) then g
    else
      var r := g[parent := node.(children := node.children + [child])];
      assert child in r[parent].children && r[child].id == g[child].id;
      r
  }

  /** `addChild` keeps the ids of a node's children pairwise distinct. */
  lemma WithChildKeepsDistinct(g: map<Ref, Node>, parent: Ref, child: Ref, n: Ref)
    requires Closed(g) && parent in g && child in g && n in g && DistinctChildIds(g, n)
    ensures DistinctChildIds(WithChild(g, parent, child), n)
  {
    var r := WithChild(g, parent, child);
    if n == parent && !HasChildWithId(g, parent, g[child].id) {
      var kids := r[n].children;
      forall i, j | 0 <= i < j < |kids|
        ensures r[kids[i]].id != r[kids[j]].id
      {
        assert g[n].children[i] in g[n].children;
        if j == |kids| - 1 {
          assert kids[i] in g[n].children && kids[j] == child;
        } else {
          assert kids[j] in g[n].children;
        }
      }
    }
  }

  /** The heap after `n.clearChildren()`. */
  function WithoutChildren(g: map<Ref, Node>, n: Ref): (r: map<Ref, Node>)
    requires n in g
    ensures r.Keys == g.Keys && r[n].id == g[n].id && r[n].children == []
    ensures forall m :: m in g && m != n ==> r[m] == g[m]
  {
    g[n := g[n].(children := [])]
  }

  /** A cleared node is a leaf: it reaches itself alone and has no links. */
  lemma ClearedIsLeaf(g: map<Ref, Node>, rank: map<Ref, nat>, n: Ref)
    requires Ranked(g, rank) && n in g
    ensures Ranked(WithoutChildren(g, n), rank)
    ensures Preorder(WithoutChildren(g, n), rank, n) == [n]
    ensures Links(WithoutChildren(g, n), rank, n) == []
  {
    var r := WithoutChildren(g, n);
    assert Ranked(r, rank) by {
      forall m | m in r
        ensures m in rank && forall c :: c in r[m].children ==> c in r && c in rank && rank[c] < rank[m]
      {
        if m != n {
          assert r[m] == g[m];
        }
      }
    }
  }

  // ----- turnIntoDAG -----

  /** The `(child.id, childPath)` pairs `findShortestPaths(n, current)`
      considers, in the order it considers them: for each child, its own
      pair, then the pairs below it. */
  function Visits(g: map<Ref, Node>, ghost rank: map<Ref, nat>, n: Ref, current: seq<Ref>): seq<(string, seq<Ref>)>
    requires Ranked(g, rank) && n in g
    decreases rank[n], 1, 0
  {
    VisitsFrom(g, rank, n, current, 0)
  }

  /** The pairs of the children of `n` from the `i`-th on. */
  function VisitsFrom(g: map<Ref, Node>, ghost rank: map<Ref, nat>, n: Ref, current: seq<Ref>, i: nat): seq<(string, seq<Ref>)>
    requires Ranked(g, rank) && n in g && i <= |g[n].children|
    decreases rank[n], 0, |g[n].children| - i
  {
    if i == |g[n].children| then []
    else
      var c := g[n].children[i];
      var path := current + [c];
      [(g[c].id, path)] + Visits(g, rank, c, path) + VisitsFrom(g, rank, n, current, i + 1)
  }

  /** One step of `findShortestPaths`: record the path unless a path no
      longer than it is already recorded under the id. */
  function Record(paths: JsMap<string, seq<Ref>>, visit: (string, seq<Ref>)): JsMap<string, seq<Ref>>
  {
    var known := paths.Get(visit.0);
    if known.None? || |known.value| > |visit.1| then paths.Set(visit.0, visit.1) else paths
  }

  /** The map after recording each of the visits in turn. */
  function RecordAll(paths: JsMap<string, seq<Ref>>, visits: seq<(string, seq<Ref>)>): JsMap<string, seq<Ref>>
  {
    if visits == [] then paths
    else Record(RecordAll(paths, visits[..|visits| - 1]), visits[|visits| - 1])
  }

  /** Recording two runs of visits is recording the first, then the second. */
  lemma {:induction false} RecordAllConcat(paths: JsMap<string, seq<Ref>>, a: seq<(string, seq<Ref>)>, b: seq<(string, seq<Ref>)>)
    ensures RecordAll(paths, a + b) == RecordAll(RecordAll(paths, a), b)
  {
    if b != [] {
      assert (a + b)[..|a + b| - 1] == a + b[..|b| - 1];
      RecordAllConcat(paths, a, b[..|b| - 1]);
    } else {
      assert a + b == a;
    }
  }

  /** `visits[k]` is the first of the shortest visits with the id `id`. */
  ghost predicate FirstShortestAt(visits: seq<(string, seq<Ref>)>, id: string, k: int)
  {
    0 <= k < |visits| && visits[k].0 == id
    && (forall j :: 0 <= j < |visits| && visits[j].0 == id ==> |visits[k].1| <= |visits[j].1|)
    && (forall j :: 0 <= j < k && visits[j].0 == id ==> |visits[k].1| < |visits[j].1|)
  }

  /** Starting from an empty map, each id visited ends up with the first
      of its shortest paths, and no other id is recorded. */
  lemma {:induction false} RecordAllKeepsFirstShortest(visits: seq<(string, seq<Ref>)>, id: string)
    ensures RecordAll(Empty(), visits).Get(id).None? <==> forall j :: 0 <= j < |visits| ==> visits[j].0 != id
    ensures RecordAll(Empty(), visits).Get(id).Some? ==>
              exists k :: FirstShortestAt(visits, id, k) && RecordAll(Empty(), visits).Get(id).value == visits[k].1
  {
    if visits != [] {
      var init, last := visits[..|visits| - 1], visits[|visits| - 1];
      RecordAllKeepsFirstShortest(init, id);
      var before := RecordAll(Empty(), init);
      assert forall j :: 0 <= j < |init| ==> init[j] == visits[j];
      if before.Get(id).Some? {
        var k :| FirstShortestAt(init, id, k) && before.Get(id).value == init[k].1;
        if last.0 == id && |before.Get(id).value| > |last.1| {
          assert FirstShortestAt(visits, id, |visits| - 1);
        } else {
          assert FirstShortestAt(visits, id, k);
        }
      } else if last.0 == id {
        assert FirstShortestAt(visits, id, |visits| - 1);
      }
    }
  }

  /** Each visit's path is a path of the graph from where `current`
      starts, one node longer than `current` at least, ending at a node
      with the visit's id. */
  lemma {:induction false} VisitsArePaths(g: map<Ref, Node>, rank: map<Ref, nat>, n: Ref, current: seq<Ref>)
    requires Ranked(g, rank) && n in g && IsPath(g, current) && current[|current| - 1] == n
    ensures forall v :: v in Visits(g, rank, n, current) ==>
              IsPath(g, v.1) && v.1[0] == current[0] && v.1[|v.1| - 1] in g && g[v.1[|v.1| - 1]].id == v.0
    decreases rank[n], 1, 0
  {
    VisitsFromArePaths(g, rank, n, current, 0);
  }

  /** The same for the children from the `i`-th on. */
  lemma {:induction false} VisitsFromArePaths(g: map<Ref, Node>, rank: map<Ref, nat>, n: Ref, current: seq<Ref>, i: nat)
    requires Ranked(g, rank) && n in g && i <= |g[n].children| && IsPath(g, current) && current[|current| - 1] == n
    ensures forall v :: v in VisitsFrom(g, rank, n, current, i) ==>
              IsPath(g, v.1) && v.1[0] == current[0] && v.1[|v.1| - 1] in g && g[v.1[|v.1| - 1]].id == v.0
    decreases rank[n], 0, |g[n].children| - i
  {
    if i < |g[n].children| {
      var c := g[n].children[i];
      assert c in g[n].children;
      var path := current + [c];
      assert IsPath(g, path) by {
        forall k | 0 <= k < |path| - 1
          ensures path[k] in g && path[k + 1] in g[path[k]].children
        {
          if k < |current| - 1 {
            assert path[k] == current[k] && path[k + 1] == current[k + 1];
          }
        }
      }
      VisitsArePaths(g, rank, c, path);
      VisitsFromArePaths(g, rank, n, current, i + 1);
    }
  }

  /** A recorded path is the path of one of the visits. */
  lemma {:induction false} RecordedIsVisited(visits: seq<(string, seq<Ref>)>, id: string)
    requires RecordAll(Empty(), visits).Get(id).Some?
    ensures (id, RecordAll(Empty(), visits).Get(id).value) in visits
  {
    RecordAllKeepsFirstShortest(visits, id);
    var k :| FirstShortestAt(visits, id, k) && RecordAll(Empty(), visits).Get(id).value == visits[k].1;
  }

  /** `findShortestPaths(n, current, paths)`: for each child, record its
      path, then recurse into it with that path. */
  method FindShortestPaths(g: map<Ref, Node>, ghost rank: map<Ref, nat>, n: Ref, current: seq<Ref>,
                           paths: JsMap<string, seq<Ref>>) returns (r: JsMap<string, seq<Ref>>)
    requires Ranked(g, rank) && n in g
    ensures r == RecordAll(paths, Visits(g, rank, n, current))
    decreases rank[n]
  {
    r := paths;
    var kids := g[n].children;
    for i := 0 to |kids|
      invariant RecordAll(r, VisitsFrom(g, rank, n, current, i)) == RecordAll(paths, Visits(g, rank, n, current))
    {
      var child := kids[i];
      assert child in kids;
      var childPath := current + [child];
      var below := Visits(g, rank, child, childPath);
      var rest := VisitsFrom(g, rank, n, current, i + 1);
      assert VisitsFrom(g, rank, n, current, i) == [(g[child].id, childPath)] + below + rest;
      RecordAllConcat(r, [(g[child].id, childPath)] + below, rest);
      RecordAllConcat(r, [(g[child].id, childPath)], below);
      assert RecordAll(r, [(g[child].id, childPath)]) == Record(r, (g[child].id, childPath));
      var known := r.Get(g[child].id);
      if known.None? || |known.value| > |childPath| {
        r := r.Set(g[child].id, childPath);
      }
      r := FindShortestPaths(g, rank, child, childPath, r);
    }
  }

  /** `g` has the nodes and ids of `g0`, and only edges `g0` has. */
  ghost predicate Subgraph(g: map<Ref, Node>, g0: map<Ref, Node>)
  {
    g.Keys == g0.Keys
    && forall n :: n in g ==> g[n].id == g0[n].id && forall c :: c in g[n].children ==> c in g0[n].children
  }

  /** Adding back an edge of `g0` keeps `g` a subgraph of `g0`. */
  lemma WithChildSubgraph(g: map<Ref, Node>, g0: map<Ref, Node>, parent: Ref, child: Ref)
    requires Closed(g) && Subgraph(g, g0) && parent in g && child in g0[parent].children && child in g
    ensures Subgraph(WithChild(g, parent, child), g0)
  {
  }

  /** Clearing a node's children keeps `g` a subgraph of `g0`. */
  lemma WithoutChildrenSubgraph(g: map<Ref, Node>, g0: map<Ref, Node>, n: Ref)
    requires Subgraph(g, g0) && n in g
    ensures Subgraph(WithoutChildren(g, n), g0)
  {
  }

  /** `g'` has the nodes of `g` and at least their edges. */
  ghost predicate Grows(g: map<Ref, Node>, g': map<Ref, Node>)
  {
    g.Keys == g'.Keys && forall n :: n in g ==> forall c :: c in g[n].children ==> c in g'[n].children
  }

  /** No two nodes share an id, as when nodes are keyed by id. */
  ghost predicate UniqueIds(g: map<Ref, Node>)
  {
    forall a, b :: a in g && b in g && g[a].id == g[b].id ==> a == b
  }

  lemma WithChildGrows(g: map<Ref, Node>, parent: Ref, child: Ref)
    requires Closed(g) && parent in g && child in g
    ensures Grows(g, WithChild(g, parent, child))
  {
  }

  /** With unique ids, `WithChild` always makes `child` a child of `parent`. */
  lemma WithChildLinks(g: map<Ref, Node>, g0: map<Ref, Node>, parent: Ref, child: Ref)
    requires Closed(g) && Subgraph(g, g0) && UniqueIds(g0) && parent in g && child in g
    ensures child in WithChild(g, parent, child)[parent].children
  {
    if HasChildWithId(g, parent, g[child].id) {
      var c :| c in g[parent].children && g[c].id == g[child].id;
      assert c == child;
    }
  }

  /** Whatever reaches `parent` before an edge `parent -> child` exists
      reaches `child` after. */
  lemma LinkReaches(g: map<Ref, Node>, g': map<Ref, Node>, rank: map<Ref, nat>, root: Ref, parent: Ref, child: Ref)
    requires Ranked(g, rank) && Ranked(g', rank) && Grows(g, g') && root in g && parent in g'
    requires Reaches(g, rank, root, parent) && child in g'[parent].children
    ensures Reaches(g', rank, root, child)
  {
    ReachesGrows(g, g', rank, root, parent);
    ReachesStep(g', rank, root, parent, child);
  }

  /** `root` reaches the last node of each of the first `k` paths. */
  ghost predicate ReachesEnds(g: map<Ref, Node>, rank: map<Ref, nat>, root: Ref, paths: seq<seq<Ref>>, k: nat)
    requires Ranked(g, rank) && root in g && k <= |paths|
  {
    forall j :: 0 <= j < k ==> |paths[j]| >= 1 && Reaches(g, rank, root, paths[j][|paths[j]| - 1])
  }

  lemma ReachesEndsGrows(g: map<Ref, Node>, g': map<Ref, Node>, rank: map<Ref, nat>, root: Ref, paths: seq<seq<Ref>>, k: nat)
    requires Ranked(g, rank) && Ranked(g', rank) && Grows(g, g') && root in g && k <= |paths|
    requires ReachesEnds(g, rank, root, paths, k)
    ensures ReachesEnds(g', rank, root, paths, k)
  {
    forall j | 0 <= j < k
      ensures Reaches(g', rank, root, paths[j][|paths[j]| - 1])
    {
      ReachesGrows(g, g', rank, root, paths[j][|paths[j]| - 1]);
    }
  }

  lemma ReachesEndsNext(g: map<Ref, Node>, rank: map<Ref, nat>, root: Ref, paths: seq<seq<Ref>>, k: nat)
    requires Ranked(g, rank) && root in g && k < |paths| && |paths[k]| >= 1
    requires ReachesEnds(g, rank, root, paths, k) && Reaches(g, rank, root, paths[k][|paths[k]| - 1])
    ensures ReachesEnds(g, rank, root, paths, k + 1)
  {
  }

  lemma EndsReached(g: map<Ref, Node>, rank: map<Ref, nat>, root: Ref, paths: seq<seq<Ref>>)
    requires Ranked(g, rank) && root in g && ReachesEnds(g, rank, root, paths, |paths|)
    ensures forall q :: q in paths ==> |q| >= 1 && Reaches(g, rank, root, q[|q| - 1])
  {
    forall q | q in paths
      ensures |q| >= 1 && Reaches(g, rank, root, q[|q| - 1])
    {
      var j :| 0 <= j < |paths| && paths[j] == q;
    }
  }

  lemma GrowsTrans(g: map<Ref, Node>, g': map<Ref, Node>, g'': map<Ref, Node>)
    requires Grows(g, g') && Grows(g', g'')
    ensures Grows(g, g'')
  {
  }

  /** Adding edges keeps what was reachable reachable. */
  lemma {:induction false} ReachesGrows(g: map<Ref, Node>, g': map<Ref, Node>, rank: map<Ref, nat>, n: Ref, m: Ref)
    requires Ranked(g, rank) && Ranked(g', rank) && Grows(g, g') && n in g && Reaches(g, rank, n, m)
    ensures Reaches(g', rank, n, m)
    decreases rank[n]
  {
    if n != m {
      var c :| c in g[n].children && Reaches(g, rank, c, m);
      ReachesGrows(g, g', rank, c, m);
      assert c in g'[n].children;
    }
  }

  /** Dropping edges keeps a graph acyclic, with the same ranks. */
  lemma SubgraphRanked(g: map<Ref, Node>, g0: map<Ref, Node>, rank: map<Ref, nat>)
    requires Ranked(g0, rank) && Subgraph(g, g0)
    ensures Ranked(g, rank)
  {
    forall n | n in g
      ensures n in rank && forall c :: c in g[n].children ==> c in g && c in rank && rank[c] < rank[n]
    {
      forall c | c in g[n].children
        ensures c in g && c in rank && rank[c] < rank[n]
      {
        assert c in g0[n].children;
      }
    }
  }

  /** Recording into a valid map keeps it valid. */
  lemma {:induction false} RecordAllValid(paths: JsMap<string, seq<Ref>>, visits: seq<(string, seq<Ref>)>)
    requires paths.Valid()
    ensures RecordAll(paths, visits).Valid()
  {
    if visits != [] {
      RecordAllValid(paths, visits[..|visits| - 1]);
    }
  }

  /** Every path `findShortestPaths(root, [root])` records is a path of
      the graph from `root`. */
  lemma RecordedArePaths(g: map<Ref, Node>, rank: map<Ref, nat>, root: Ref)
    requires Ranked(g, rank) && root in g
    ensures var recorded := RecordAll(Empty(), Visits(g, rank, root, [root]));
            recorded.Valid() && forall q :: q in recorded.Values() ==> IsPath(g, q) && q[0] == root
  {
    var visits := Visits(g, rank, root, [root]);
    var recorded := RecordAll(Empty(), visits);
    RecordAllValid(Empty(), visits);
    VisitsArePaths(g, rank, root, [root]);
    var values := recorded.Values();
    forall q | q in values
      ensures IsPath(g, q) && q[0] == root
    {
      var k :| 0 <= k < |values| && values[k] == q;
      var id := recorded.keys[k];
      assert id in recorded.vals && recorded.Get(id) == Some(q);
      RecordedIsVisited(visits, id);
    }
  }

  /** Every node of a path from `root` is reachable from `root`. */
  lemma {:induction false} PathReaches(g: map<Ref, Node>, rank: map<Ref, nat>, p: seq<Ref>, k: nat)
    requires Ranked(g, rank) && IsPath(g, p) && k < |p|
    ensures Reaches(g, rank, p[0], p[k])
    decreases k
  {
    if k > 0 {
      PathReaches(g, rank, p, k - 1);
      ReachesStep(g, rank, p[0], p[k - 1], p[k]);
    }
  }

  /** Reaching a node, one reaches its children. */
  lemma {:induction false} ReachesStep(g: map<Ref, Node>, rank: map<Ref, nat>, n: Ref, m: Ref, c: Ref)
    requires Ranked(g, rank) && n in g && m in g && Reaches(g, rank, n, m) && c in g[m].children
    ensures Reaches(g, rank, n, c)
    decreases rank[n]
  {
    if n != m {
      var d :| d in g[n].children && Reaches(g, rank, d, m);
      ReachesStep(g, rank, d, m, c);
    }
  }

  /** The `MyNode` objects: the fields each reference currently holds. */
  class MyNodeHeap {
    var nodes: map<Ref, Node>

    ghost predicate Valid()
      reads this
    {
      Closed(nodes)
    }

    constructor (nodes: map<Ref, Node>)
      requires Closed(nodes)
      ensures Valid() && this.nodes == nodes
    {
      this.nodes := nodes;
    }

    /** `parent.addChild(child)`: push `child` when no child of `parent`
        has its id. */
    method AddChild(parent: Ref, child: Ref)
      requires Valid() && parent in nodes && child in nodes
      modifies this
      ensures Valid() && nodes == WithChild(old(nodes), parent, child)
    {
      var node := nodes[parent];
      var every := true;
      var i := 0;
      while i < |node.children| && every
        invariant 0 <= i <= |node.children|
        invariant every <==> forall j :: 0 <= j < i ==> nodes[node.children[j]].id != nodes[child].id
      {
        assert node.children[i] in node.children;
        every := nodes[node.children[i]].id != nodes[child].id;
        i := i + 1;
      }
      if every {
        assert !HasChildWithId(nodes, parent, nodes[child].id) by {
          forall c | c in node.children
            ensures nodes[c].id != nodes[child].id
          {
            var j :| 0 <= j < |node.children| && node.children[j] == c;
          }
        }
        nodes := nodes[parent := node.(children := node.children + [child])];
      } else {
        var j :| 0 <= j < i && nodes[node.children[j]].id == nodes[child].id;
        assert node.children[j] in node.children;
      }
    }

    /** `n.clearChildren()`. */
    method ClearChildren(n: Ref)
      requires Valid() && n in nodes
      modifies this
      ensures Valid() && nodes == WithoutChildren(old(nodes), n)
    {
      nodes := nodes[n := nodes[n].(children := [])];
    }

    /** The loop clearing the children of each node of `all`. */
    method ClearAll(all: seq<Ref>, ghost g0: map<Ref, Node>)
      requires Valid() && Subgraph(nodes, g0) && forall n :: n in all ==> n in nodes
      modifies this
      ensures Valid() && Subgraph(nodes, g0)
      ensures forall n :: n in all ==> nodes[n].children == []
      ensures forall n :: n in nodes && n !in all ==> nodes[n] == old(nodes)[n]
    {
      for k := 0 to |all|
        invariant Valid() && Subgraph(nodes, g0) && nodes.Keys == old(nodes).Keys
        invariant forall j :: 0 <= j < k ==> nodes[all[j]].children == []
        invariant forall n :: n in nodes && n !in all ==> nodes[n] == old(nodes)[n]
      {
        WithoutChildrenSubgraph(nodes, g0, all[k]);
        ClearChildren(all[k]);
      }
    }

    /** One step of the rebuild: add the edge `parent -> child` exactly when
        `root` does not reach `child` yet, and otherwise change nothing.  When
        ids are unique, `root` reaches `child` afterwards. */
    method Link(root: Ref, ghost rank: map<Ref, nat>, ghost g0: map<Ref, Node>, ghost all: seq<Ref>, parent: Ref, child: Ref)
      requires Valid() && Subgraph(nodes, g0) && Ranked(g0, rank) && Ranked(nodes, rank) && root in nodes
      requires parent in all && parent in g0 && child in g0[parent].children
      requires UniqueIds(g0) ==> Reaches(nodes, rank, root, parent)
      modifies this
      ensures Valid() && Subgraph(nodes, g0) && Ranked(nodes, rank) && Grows(old(nodes), nodes)
      ensures forall n :: n in nodes && n !in all ==> nodes[n] == old(nodes)[n]
      ensures UniqueIds(g0) ==> Reaches(nodes, rank, root, child)
      ensures Reaches(old(nodes), rank, root, child) ==> nodes == old(nodes)
      ensures !Reaches(old(nodes), rank, root, child) ==> nodes == WithChild(old(nodes), parent, child)
    {
      NotFoundIffUnreachable(nodes, rank, root, child);
      if FindShortestPath(nodes, rank, root, child).None? {
        WithChildSubgraph(nodes, g0, parent, child);
        ghost var before := nodes;
        AddChild(parent, child);
        SubgraphRanked(nodes, g0, rank);
        WithChildGrows(before, parent, child);
        if UniqueIds(g0) {
          WithChildLinks(before, g0, parent, child);
          LinkReaches(before, nodes, rank, root, parent, child);
        }
      }
    }

    /** The loop over the edges of one recorded path. */
    method AddPath(root: Ref, ghost rank: map<Ref, nat>, ghost g0: map<Ref, Node>, ghost all: seq<Ref>, path: seq<Ref>)
      requires Valid() && Subgraph(nodes, g0) && Ranked(g0, rank) && root in g0
      requires all == Preorder(g0, rank, root) && IsPath(g0, path) && path[0] == root
      modifies this
      ensures Valid() && Subgraph(nodes, g0) && Ranked(nodes, rank) && Grows(old(nodes), nodes)
      ensures forall n :: n in nodes && n !in all ==> nodes[n] == old(nodes)[n]
      ensures UniqueIds(g0) ==> Reaches(nodes, rank, root, path[|path| - 1])
    {
      SubgraphRanked(nodes, g0, rank);
      var i := 0;
      while i < |path| - 1
        invariant i < |path| && Valid() && Subgraph(nodes, g0) && Ranked(nodes, rank) && Grows(old(nodes), nodes)
        invariant forall n :: n in nodes && n !in all ==> nodes[n] == old(nodes)[n]
        invariant UniqueIds(g0) ==> Reaches(nodes, rank, root, path[i])
      {
        PathReaches(g0, rank, path, i);
        PreorderIsReachable(g0, rank, root, path[i]);
        ghost var before := nodes;
        Link(root, rank, g0, all, path[i], path[i + 1]);
        GrowsTrans(old(nodes), before, nodes);
        i := i + 1;
      }
    }

    /** The loop over the recorded paths. */
    method AddPaths(root: Ref, ghost rank: map<Ref, nat>, ghost g0: map<Ref, Node>, ghost all: seq<Ref>, paths: seq<seq<Ref>>)
      requires Valid() && Subgraph(nodes, g0) && Ranked(g0, rank) && root in g0
      requires all == Preorder(g0, rank, root)
      requires forall q :: q in paths ==> IsPath(g0, q) && q[0] == root
      modifies this
      ensures Valid() && Subgraph(nodes, g0) && Ranked(nodes, rank)
      ensures forall n :: n in nodes && n !in all ==> nodes[n] == old(nodes)[n]
      ensures UniqueIds(g0) ==> forall q :: q in paths ==> |q| >= 1 && Reaches(nodes, rank, root, q[|q| - 1])
    {
      SubgraphRanked(nodes, g0, rank);
      for k := 0 to |paths|
        invariant Valid() && Subgraph(nodes, g0) && Ranked(nodes, rank)
        invariant forall n :: n in nodes && n !in all ==> nodes[n] == old(nodes)[n]
        invariant UniqueIds(g0) ==> ReachesEnds(nodes, rank, root, paths, k)
      {
        ghost var before := nodes;
        assert paths[k] in paths;
        AddPath(root, rank, g0, all, paths[k]);
        if UniqueIds(g0) {
          ReachesEndsGrows(before, nodes, rank, root, paths, k);
          ReachesEndsNext(nodes, rank, root, paths, k);
        }
      }
      if UniqueIds(g0) {
        EndsReached(nodes, rank, root, paths);
      }
    }

    /** `root.turnIntoDAG()`: record the shortest paths from `root`, clear
        the children of every node `root` reaches, then add back the edges
        of the recorded paths, each only when its target cannot yet be
        reached from `root`. */
    method TurnIntoDAG(root: Ref, ghost rank: map<Ref, nat>) returns (shortest: JsMap<string, seq<Ref>>)
      requires Valid() && Ranked(nodes, rank) && root in nodes
      modifies this
      ensures shortest == RecordAll(Empty(), Visits(old(nodes), rank, root, [root]))
      ensures Valid() && Subgraph(nodes, old(nodes)) && Ranked(nodes, rank)
      ensures forall n :: n in nodes && !Reaches(old(nodes), rank, root, n) ==> nodes[n] == old(nodes)[n]
      ensures shortest.Valid()
      ensures forall q :: q in shortest.Values() ==> |q| >= 1
      ensures UniqueIds(old(nodes)) ==> forall q :: q in shortest.Values() ==> Reaches(nodes, rank, root, q[|q| - 1])
    {
      ghost var g0 := nodes;
      shortest := FindShortestPaths(nodes, rank, root, [root], Empty());
      var all := Preorder(nodes, rank, root);
      ClearAll(all, g0);
      RecordedArePaths(g0, rank, root);
      AddPaths(root, rank, g0, all, shortest.Values());
      forall n | n in nodes && !Reaches(g0, rank, root, n)
        ensures nodes[n] == g0[n]
      {
        PreorderIsReachable(g0, rank, root, n);
      }
    }
  }
}
