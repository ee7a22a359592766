/**
 * `MyNode.fromFileSystemArr`: build the folder tree of a list of file paths
 * and return the first folder below `C:` with more than one child.
 *
 * The source keeps one node per path id in a map, so a node is modelled by
 * its id and the tree by the map from each id to the ids of its children,
 * in insertion order.
 */
module FileSystemTrees {
  import opened Wrappers
  import opened JsStrings

  /** Each node's id mapped to the ids of its children. */
  type Tree = map<string, seq<string>>

  /** The id of the folder holding `id`: what comes before its last `/`, or
      `""` when it has none. */
  function Parent(id: string): (r: string)
    ensures |r| <= |id| && (id != "" ==> |r| < |id|)
  {
    if |id| == 0 then ""
    else if id[|id| - 1] == '/' then id[..|id| - 1]
    else Parent(id[..|id| - 1])
  }

  lemma {:induction false} ParentOfJoin(a: string, seg: string)
    requires Free(seg, '/')
    ensures Parent(a + "/" + seg) == a
    decreases |seg|
  {
    var s := a + "/" + seg;
    if seg != [] {
      assert s[..|s| - 1] == a + "/" + seg[..|seg| - 1];
      ParentOfJoin(a, seg[..|seg| - 1]);
    } else {
      assert s[..|s| - 1] == a;
    }
  }

  lemma {:induction false} ParentOfFree(seg: string)
    requires Free(seg, '/')
    ensures Parent(seg) == ""
    decreases |seg|
  {
    if seg != [] {
      ParentOfFree(seg[..|seg| - 1]);
    }
  }

  lemma {:induction false} JoinSnoc(p: seq<string>, x: string, sep: string)
    requires |p| >= 1
    ensures Join(p + [x], sep) == Join(p, sep) + sep + x
    decreases |p|
  {
    if |p| > 1 {
      assert (p + [x])[1..] == p[1..] + [x];
      JoinSnoc(p[1..], x, sep);
    }
  }

  /** The parent of the path made of the first `i + 1` pieces is the path
      made of the first `i`. */
  lemma PrefixParent(p: seq<string>, i: nat)
    requires i < |p| && forall k :: 0 <= k < |p| ==> Free(p[k], '/')
    ensures Parent(Join(p[..i + 1], "/")) == Join(p[..i], "/")
  {
    if i == 0 {
      assert p[..1] == [p[0]];
      ParentOfFree(p[0]);
    } else {
      assert p[..i + 1] == p[..i] + [p[i]];
      JoinSnoc(p[..i], p[i], "/");
      ParentOfJoin(Join(p[..i], "/"), p[i]);
    }
  }

  /** The path made of the first `j + 1` pieces of `f`. */
  function Prefix(f: string, j: nat): string
    requires j < |Split(f, '/')|
  {
    Join(Split(f, '/')[..j + 1], "/")
  }

  /** The paths made of the first `1`, ..., `i` pieces of `f`. */
  ghost function Partial(f: string, i: nat): set<string>
  {
    set j | 0 <= j < i && j < |Split(f, '/')| :: Prefix(f, j)
  }

  lemma PartialNext(f: string, i: nat)
    requires i < |Split(f, '/')|
    ensures Partial(f, i + 1) == Partial(f, i) + {Prefix(f, i)}
  {
    forall x | x in Partial(f, i + 1)
      ensures x in Partial(f, i) + {Prefix(f, i)}
    {
      var j :| 0 <= j < i + 1 && j < |Split(f, '/')| && x == Prefix(f, j);
    }
  }

  /** Every folder and file path that a list of files names. */
  ghost function AllPrefixes(files: seq<string>): set<string>
  {
    if |files| == 0 then {}
    else AllPrefixes(files[..|files| - 1]) + Partial(files[|files| - 1], |Split(files[|files| - 1], '/')|)
  }

  lemma AllPrefixesNext(files: seq<string>, k: nat)
    requires k < |files|
    ensures AllPrefixes(files[..k + 1]) == AllPrefixes(files[..k]) + Partial(files[k], |Split(files[k], '/')|)
  {
    assert files[..k + 1][..k] == files[..k];
  }

  lemma {:induction false} PrefixInAll(files: seq<string>, k: nat, i: nat)
    requires k < |files| && i < |Split(files[k], '/')|
    ensures Prefix(files[k], i) in AllPrefixes(files)
    decreases |files|
  {
    var last := |files| - 1;
    if k < last {
      assert files[..last][k] == files[k];
      PrefixInAll(files[..last], k, i);
    } else {
      assert Prefix(files[k], i) in Partial(files[k], |Split(files[k], '/')|);
    }
  }

  /** A non-empty list of files names at least one path. */
  lemma AllPrefixesNonEmpty(files: seq<string>)
    requires |files| > 0
    ensures AllPrefixes(files) != {}
  {
    var f := files[|files| - 1];
    assert Prefix(f, 0) in Partial(f, |Split(f, '/')|);
  }

  /** The edges go from each node's parent id to it and no child list
      names a node twice. */
  ghost predicate PrefixTree(t: Tree)
  {
    (forall a, c :: a in t && c in t[a] ==> c in t && a == Parent(c))
    && (forall a, i, j :: a in t && 0 <= i < j < |t[a]| ==> t[a][i] != t[a][j])
  }

  /** Each id of `ids` but `""` is a child of its parent. */
  ghost predicate Linked(t: Tree, ids: set<string>)
  {
    forall c :: c in ids && c != "" ==> Parent(c) in t && c in t[Parent(c)]
  }

  /** Below a node other than `""`, ids grow strictly longer. */
  lemma ChildLonger(t: Tree, n: string, c: string)
    requires PrefixTree(t) && n in t && n != "" && c in t[n]
    ensures c in t && |c| > |n|
  {
  }

  /** The nodes whose ids are at least as long as `n`'s. */
  ghost function AtLeast(t: Tree, n: string): set<string>
  {
    set k | k in t && |k| >= |n|
  }

  lemma AtLeastShrinks(t: Tree, n: string, c: string)
    requires PrefixTree(t) && n in t && n != "" && c in t[n]
    ensures |AtLeast(t, c)| < |AtLeast(t, n)|
  {
    ChildLonger(t, n, c);
    var smaller := AtLeast(t, n) - {n};
    assert AtLeast(t, c) <= smaller by {
      forall k | k in AtLeast(t, c)
        ensures k in smaller
      {
      }
    }
    SubsetCard(AtLeast(t, c), smaller);
    assert AtLeast(t, n) == smaller + {n};
  }

  lemma {:induction false} SubsetCard<T>(a: set<T>, b: set<T>)
    requires a <= b
    ensures |a| <= |b|
    decreases |a|
  {
    if a != {} {
      var x :| x in a;
      SubsetCard(a - {x}, b - {x});
    }
  }

  /** `firstFolderWithMoreThanOneChild`: follow first children from `n`
      until a node with no child (`None`) or more than one (that node). */
  function FirstBranching(t: Tree, n: string): (r: Option<string>)
    requires PrefixTree(t) && n in t && n != ""
    ensures r.Some? ==> r.value in t && |t[r.value]| > 1
    decreases |AtLeast(t, n)|
  {
    if |t[n]| == 0 then None
    else if |t[n]| > 1 then Some(n)
    else
      AtLeastShrinks(t, n, t[n][0]);
      FirstBranching(t, t[n][0])
  }

  /** `m` is reached from `n` through nodes with exactly one child each. */
  ghost predicate OnlyChildChain(t: Tree, n: string, m: string)
    requires PrefixTree(t) && n in t && n != ""
    decreases |AtLeast(t, n)|
  {
    n == m
    || (|t[n]| == 1 && (AtLeastShrinks(t, n, t[n][0]); OnlyChildChain(t, t[n][0], m)))
  }

  /** The search returns `m` exactly when `m` is the first node with more
      than one child on the only-child chain from `n`. */
  lemma {:induction false} FirstBranchingIsFirstFork(t: Tree, n: string, m: string)
    requires PrefixTree(t) && n in t && n != ""
    ensures FirstBranching(t, n) == Some(m) <==> m in t && OnlyChildChain(t, n, m) && |t[m]| > 1
    decreases |AtLeast(t, n)|
  {
    if |t[n]| == 1 {
      AtLeastShrinks(t, n, t[n][0]);
      FirstBranchingIsFirstFork(t, t[n][0], m);
    }
  }

  /** The search finds nothing exactly when the only-child chain from `n`
      ends in a node without children. */
  lemma {:induction false} FirstBranchingNone(t: Tree, n: string)
    requires PrefixTree(t) && n in t && n != ""
    ensures FirstBranching(t, n) == None <==> exists m :: m in t && OnlyChildChain(t, n, m) && |t[m]| == 0
    decreases |AtLeast(t, n)|
  {
    if |t[n]| == 0 {
      assert OnlyChildChain(t, n, n);
    } else if |t[n]| == 1 {
      var c := t[n][0];
      AtLeastShrinks(t, n, c);
      FirstBranchingNone(t, c);
      if FirstBranching(t, c) == None {
        var m :| m in t && OnlyChildChain(t, c, m) && |t[m]| == 0;
        assert OnlyChildChain(t, n, m);
      }
      forall m | m in t && OnlyChildChain(t, n, m) && |t[m]| == 0
        ensures OnlyChildChain(t, c, m)
      {
      }
    } else {
      forall m | m in t && OnlyChildChain(t, n, m)
        ensures m == n
      {
      }
    }
  }

  /** The map after the paths `ids` have been seen: the tree shape, each
      path linked under its parent, and the keys are the paths plus `""`,
      the parent of the first pieces, once anything was added. */
  ghost predicate Built(t: Tree, ids: set<string>)
  {
    PrefixTree(t) && Linked(t, ids) && t.Keys == ids + (if ids == {} then {} else {""})
  }

  /** A path already present changes nothing. */
  lemma SeenStep(t: Tree, ids: set<string>, id: string)
    requires Built(t, ids) && id in t
    ensures Built(t, ids + {id})
  {
  }

  /** The children of `id`, none when it is not a node yet. */
  function Siblings(t: Tree, id: string): seq<string>
  {
    if id in t then t[id] else []
  }

  /** A new path, added under its parent, keeps the tree shape. */
  lemma NewStepTree(t: Tree, t': Tree, id: string, parentId: string)
    requires PrefixTree(t) && id !in t && Parent(id) == parentId
    requires t'.Keys == t.Keys + {id, parentId}
    requires t'[parentId] == (if parentId in t then t[parentId] else []) + [id]
    requires id != parentId ==> t'[id] == []
    requires forall k :: k in t && k != parentId ==> t'[k] == t[k]
    ensures PrefixTree(t')
  {
    var prev := if parentId in t then t[parentId] else [];
    assert id !in prev;
    forall a, i, j | a in t' && 0 <= i < j < |t'[a]|
      ensures t'[a][i] != t'[a][j]
    {
      if a == parentId && j == |prev| {
        assert t'[a][i] == prev[i];
      }
    }
  }

  /** A new path, added under its parent, keeps the map built. */
  lemma NewStep(t: Tree, t': Tree, ids: set<string>, id: string, parentId: string)
    requires Built(t, ids) && id !in t && Parent(id) == parentId && (parentId == "" || parentId in ids)
    requires t' == t[id := []][parentId := Siblings(t, parentId) + [id]]
    ensures id !in Siblings(t, parentId) && Built(t', ids + {id})
  {
    assert id !in Siblings(t, parentId);
    NewStepTree(t, t', id, parentId);
    forall c | c in ids + {id} && c != ""
      ensures Parent(c) in t' && c in t'[Parent(c)]
    {
      if c != id {
        assert c in t[Parent(c)];
      }
    }
  }

  /** A new node without children keeps the tree shape and the links. */
  lemma AddLeaf(t: Tree, ids: set<string>, n: string)
    requires PrefixTree(t) && Linked(t, ids) && n !in t
    ensures PrefixTree(t[n := []]) && Linked(t[n := []], ids)
  {
    var t' := t[n := []];
    forall a, c | a in t' && c in t'[a]
      ensures c in t' && a == Parent(c)
    {
      assert a in t && t'[a] == t[a];
    }
    forall c | c in ids && c != ""
      ensures Parent(c) in t' && c in t'[Parent(c)]
    {
      assert Parent(c) != n;
    }
  }

  /** One pass of the loop over the pieces of a file: the node for the
      path of the first `i + 1` pieces, created and added under its parent
      when first seen. */
  method AddPiece(t: Tree, paths: seq<string>, i: nat, ghost file: string, ghost seen: set<string>) returns (t': Tree)
    requires paths == Split(file, '/') && i < |paths|
    requires Built(t, seen) && (i > 0 ==> Prefix(file, i - 1) in seen)
    ensures Built(t', seen + {Prefix(file, i)})
  {
    var id := Join(paths[..i + 1], "/");
    if id !in t {
      var parentId := Join(paths[..i], "/");
      PrefixParent(paths, i);
      if i > 0 {
        assert parentId == Prefix(file, i - 1);
      }
      var siblings := Siblings(t, parentId);
      NewStep(t, t[id := []][parentId := siblings + [id]], seen, id, parentId);
      if id !in siblings {
        t' := t[id := []][parentId := siblings + [id]];
      } else {
        assert false;
      }
    } else {
      SeenStep(t, seen, id);
      t' := t;
    }
  }

  /** The loop over the pieces of one file. */
  method AddFile(tree: Tree, file: string, ghost ids: set<string>) returns (t: Tree)
    requires Built(tree, ids)
    ensures Built(t, ids + Partial(file, |Split(file, '/')|))
  {
    t := tree;
    var paths := Split(file, '/');
    for i := 0 to |paths|
      invariant Built(t, ids + Partial(file, i))
    {
      PartialNext(file, i);
      if i > 0 {
        PartialNext(file, i - 1);
      }
      t := AddPiece(t, paths, i, file, ids + Partial(file, i));
      assert ids + Partial(file, i + 1) == ids + Partial(file, i) + {Prefix(file, i)};
    }
  }

  /** `MyNode.fromFileSystemArr(files)`: one node per path made of the
      first pieces of a file's `/`-separated pieces, each added as a child
      of the path one piece shorter when first seen; then the search from
      the node `C:`.  The result is the whole tree and the id the search
      returns. */
  method FromFileSystemArr(files: seq<string>) returns (tree: Tree, r: Option<string>)
    ensures PrefixTree(tree) && Linked(tree, AllPrefixes(files))
    ensures tree.Keys == AllPrefixes(files) + (if |files| == 0 then {} else {""}) + {"C:"}
    ensures r == FirstBranching(tree, "C:")
  {
    tree := map[];
    for k := 0 to |files|
      invariant Built(tree, AllPrefixes(files[..k]))
    {
      AllPrefixesNext(files, k);
      tree := AddFile(tree, files[k], AllPrefixes(files[..k]));
    }
    assert files[..|files|] == files;
    if |files| > 0 {
      AllPrefixesNonEmpty(files);
    }
    if "C:" !in tree {
      AddLeaf(tree, AllPrefixes(files), "C:");
      tree := tree["C:" := []];
    }
    r := FirstBranching(tree, "C:");
  }

  /** In a map built from `files`, every file hangs under `""` through the
      chain of its folders: the path of its first piece is a child of
      `""` and the path of its first `i + 1` pieces is a child of the
      path of its first `i`. */
  lemma FileHangsFromFolders(tree: Tree, files: seq<string>, k: nat, i: nat)
    requires Linked(tree, AllPrefixes(files)) && k < |files| && i < |Split(files[k], '/')|
    ensures i == 0 && Prefix(files[k], 0) != "" ==> "" in tree && Prefix(files[k], 0) in tree[""]
    ensures i > 0 ==> Prefix(files[k], i - 1) in tree && Prefix(files[k], i) in tree[Prefix(files[k], i - 1)]
  {
    var p := Split(files[k], '/');
    PrefixInAll(files, k, i);
    PrefixParent(p, i);
  }
}
