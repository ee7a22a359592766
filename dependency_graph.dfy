/**
 * The pure helpers of the dependency-graph builder: the cycle check along
 * parent links, the `.vue` file-name fix, the preorder flattening of the
 * graph, de-duplication by key, and the two CSV files built from the graph.
 */
module DependencyGraphs {
  import opened Wrappers
  import opened JsStrings

  /** A node of the import graph: its imports as children. */
  datatype GraphNode = GraphNode(children: seq<GraphNode>, fileName: string, filePath: string,
                                 isLibrary: bool, package: Option<string>)

  /** The `filePath`s along a node's `parent` links, the node's own first. */
  datatype Lineage = Lineage(filePath: string, parent: Option<Lineage>)

  /** `isCircularDependency(node, filePath)`. */
  predicate IsCircularDependency(node: Lineage, filePath: string)
    decreases node
  {
    if node.filePath == filePath then true
    else if node.parent.Some? then IsCircularDependency(node.parent.value, filePath)
    else false
  }

  /** The paths of a node and its ancestors, nearest first. */
  function Ancestors(node: Lineage): seq<string>
    decreases node
  {
    [node.filePath] + (if node.parent.Some? then Ancestors(node.parent.value) else [])
  }

  /** A file is circular exactly when it is the node itself or one of its ancestors. */
  lemma {:induction false} CircularIffAncestor(node: Lineage, filePath: string)
    ensures IsCircularDependency(node, filePath) <==> filePath in Ancestors(node)
    decreases node
  {
    if node.parent.Some? {
      CircularIffAncestor(node.parent.value, filePath);
    }
  }

  /** `adjustFileName`: a name containing `.vue` but not ending with it
      loses its last three characters (`Foo.vue.ts` becomes `Foo.vue`). */
  function AdjustFileName(fileName: string): (r: string)
    ensures |r| <= |fileName| && r == fileName[..|r|]
  {
    if Includes(fileName, ".vue") && !EndsWith(fileName, ".vue") then
      fileName[..|fileName| - 3]
    else fileName
  }

  /** The module resolver's `Foo.vue.ts` is read as `Foo.vue`, and a name
      that already ends with `.vue` is kept, so adjusting twice is adjusting once. */
  lemma AdjustVueModule(stem: string)
    ensures AdjustFileName(stem + ".vue.ts") == stem + ".vue"
    ensures AdjustFileName(stem + ".vue") == stem + ".vue"
  {
    var name := stem + ".vue.ts";
    assert OccursAt(name, ".vue", |stem|);
    assert name[..|name| - 3] == stem + ".vue";
    assert !EndsWith(name, ".vue") by {
      assert name[|name| - 4..] == ".vue.ts"[3..];
    }
    assert OccursAt(stem + ".vue", ".vue", |stem|);
  }

  /** Names without `.vue` pass through unchanged. */
  lemma AdjustOtherNames(fileName: string)
    requires !Includes(fileName, ".vue")
    ensures AdjustFileName(fileName) == fileName
  {
  }

  /** The number of nodes of a graph, counting repeated subtrees each time. */
  function Size(node: GraphNode): nat
    decreases node, 1
  {
    1 + SizeAll(node.children)
  }

  function SizeAll(nodes: seq<GraphNode>): nat
    decreases nodes, 0
  {
    if nodes == [] then 0 else Size(nodes[0]) + SizeAll(nodes[1..])
  }

  /** `flatGraph(graph)`: the node, then each child's flattening in order. */
  function FlatGraph(node: GraphNode): (r: seq<GraphNode>)
    ensures |r| >= 1 && r[0] == node
    decreases node, 1
  {
    [node] + FlatAll(node.children)
  }

  function FlatAll(nodes: seq<GraphNode>): seq<GraphNode>
    decreases nodes, 0
  {
    if nodes == [] then [] else FlatGraph(nodes[0]) + FlatAll(nodes[1..])
  }

  /** The flattening lists every node once per occurrence in the tree. */
  lemma {:induction false} FlatGraphSize(node: GraphNode)
    ensures |FlatGraph(node)| == Size(node)
    decreases node, 1
  {
    FlatAllSize(node.children);
  }

  lemma {:induction false} FlatAllSize(nodes: seq<GraphNode>)
    ensures |FlatAll(nodes)| == SizeAll(nodes)
    decreases nodes, 0
  {
    if nodes != [] {
      FlatGraphSize(nodes[0]);
      FlatAllSize(nodes[1..]);
    }
  }

  /** Every child's subtree is listed in its parent's flattening. */
  lemma {:induction false} FlatGraphHasChildren(node: GraphNode, k: nat)
    requires k < |node.children|
    ensures forall x :: x in FlatGraph(node.children[k]) ==> x in FlatGraph(node)
  {
    FlatAllHas(node.children, k);
  }

  lemma {:induction false} FlatAllHas(nodes: seq<GraphNode>, k: nat)
    requires k < |nodes|
    ensures forall x :: x in FlatGraph(nodes[k]) ==> x in FlatAll(nodes)
    decreases k
  {
    if k > 0 {
      FlatAllHas(nodes[1..], k - 1);
    }
  }

  // ---- uniqueBy ----

  /** The keys of the elements of `s`. */
  ghost function KeysOf<T>(s: seq<T>, key: T -> string): set<string>
  {
    set x | x in s :: key(x)
  }

  /** What `uniqueBy(array, key)` returns: each element whose key has not
      been seen before, in order. */
  function Unique<T(==)>(items: seq<T>, key: T -> string): seq<T>
    decreases |items|
  {
    if items == [] then []
    else
      var init := items[..|items| - 1];
      var last := items[|items| - 1];
      if exists x :: x in init && key(x) == key(last) then Unique(init, key)
      else Unique(init, key) + [last]
  }

  /** `uniqueBy(array, fn)`: filter with a set of the keys seen so far. */
  method UniqueBy<T(==)>(items: seq<T>, key: T -> string) returns (r: seq<T>)
    ensures r == Unique(items, key)
  {
    var seen: set<string> := {};
    r := [];
    var i := 0;
    while i < |items|
      invariant i <= |items|
      invariant seen == KeysOf(items[..i], key) && r == Unique(items[..i], key)
    {
      var value := key(items[i]);
      assert items[..i + 1][..i] == items[..i];
      if value in seen {
        var x :| x in items[..i] && key(x) == value;
        assert x in items[..i + 1][..i];
      } else {
        r := r + [items[i]];
        seen := seen + {value};
      }
      assert items[..i + 1] == items[..i] + [items[i]];
      i := i + 1;
    }
    assert items[..i] == items;
  }

  /** No two kept elements share a key. */
  lemma {:induction false} UniqueDistinct<T>(items: seq<T>, key: T -> string)
    ensures var r := Unique(items, key);
            forall i, j :: 0 <= i < j < |r| ==> key(r[i]) != key(r[j])
    decreases |items|
  {
    if items != [] {
      var init := items[..|items| - 1];
      var last := items[|items| - 1];
      var r0 := Unique(init, key);
      UniqueDistinct(init, key);
      UniqueKeys(init, key);
      if !(exists x :: x in init && key(x) == key(last)) {
        forall i | 0 <= i < |r0| ensures key(r0[i]) != key(last) {
          assert key(r0[i]) in KeysOf(r0, key);
          var x :| x in init && key(x) == key(r0[i]);
        }
      }
    }
  }

  /** No key is lost: the kept elements have exactly the keys of the input. */
  lemma {:induction false} UniqueKeys<T>(items: seq<T>, key: T -> string)
    ensures KeysOf(Unique(items, key), key) == KeysOf(items, key)
    decreases |items|
  {
    if items != [] {
      var init := items[..|items| - 1];
      var last := items[|items| - 1];
      UniqueKeys(init, key);
      assert items == init + [last];
      KeysOfAppend(init, last, key);
      if exists x :: x in init && key(x) == key(last) {
        var x :| x in init && key(x) == key(last);
        assert key(last) in KeysOf(init, key);
      } else {
        KeysOfAppend(Unique(init, key), last, key);
      }
    }
  }

  lemma KeysOfAppend<T>(s: seq<T>, x: T, key: T -> string)
    ensures KeysOf(s + [x], key) == KeysOf(s, key) + {key(x)}
  {
    assert forall y :: y in s + [x] <==> y in s || y == x;
  }

  /** One element is kept per distinct key. */
  lemma {:induction false} UniqueCount<T>(items: seq<T>, key: T -> string)
    ensures |Unique(items, key)| == |KeysOf(items, key)|
    decreases |items|
  {
    if items != [] {
      var init := items[..|items| - 1];
      var last := items[|items| - 1];
      UniqueCount(init, key);
      assert items == init + [last];
      KeysOfAppend(init, last, key);
      if exists x :: x in init && key(x) == key(last) {
        var x :| x in init && key(x) == key(last);
        assert key(last) in KeysOf(init, key);
      } else {
        assert key(last) !in KeysOf(init, key);
      }
    }
  }

  /** Only elements of the input are kept. */
  lemma {:induction false} UniqueFromInput<T>(items: seq<T>, key: T -> string)
    ensures forall x :: x in Unique(items, key) ==> x in items
    decreases |items|
  {
    if items != [] {
      UniqueFromInput(items[..|items| - 1], key);
      assert forall x :: x in items[..|items| - 1] ==> x in items;
    }
  }

  /** The kept element for each key is the first one with that key. */
  lemma {:induction false} UniqueKeepsFirst<T>(items: seq<T>, key: T -> string, i: nat)
    requires i < |items| && forall j :: 0 <= j < i ==> key(items[j]) != key(items[i])
    ensures items[i] in Unique(items, key)
    decreases |items|
  {
    var init := items[..|items| - 1];
    if i < |items| - 1 {
      UniqueKeepsFirst(init, key, i);
    } else {
      assert forall x :: x in init ==> key(x) != key(items[i]);
    }
  }

  /** `s` lists some of the elements of `t`, in the same order. */
  predicate Subsequence<T(==)>(s: seq<T>, t: seq<T>)
    decreases |t|
  {
    if s == [] then true
    else if t == [] then false
    else (s[|s| - 1] == t[|t| - 1] && Subsequence(s[..|s| - 1], t[..|t| - 1]))
         || Subsequence(s, t[..|t| - 1])
  }

  /** Keeping elements preserves their order. */
  lemma {:induction false} UniqueInOrder<T>(items: seq<T>, key: T -> string)
    ensures Subsequence(Unique(items, key), items)
    decreases |items|
  {
    if items != [] {
      var init := items[..|items| - 1];
      var r := Unique(init, key);
      UniqueInOrder(init, key);
      if !(exists x :: x in init && key(x) == key(items[|items| - 1])) {
        assert (r + [items[|items| - 1]])[..|r|] == r;
      }
    }
  }

  // ---- The two CSV files ----

  /** One line of `names.csv`; `lower` is `toLocaleLowerCase` and
      `dirname` is `path.dirname`. */
  function NameRow(node: GraphNode, lower: string -> string, dirname: string -> string): string
  {
    var filePath := lower(node.filePath);
    lower(node.filePath) + ";" + lower(node.fileName) + ";" + lower(dirname(filePath)) + ";"
      + (if node.isLibrary then "true" else "false")
  }

  function NameRows(nodes: seq<GraphNode>, lower: string -> string, dirname: string -> string): (r: seq<string>)
    ensures |r| == |nodes| && forall k :: 0 <= k < |nodes| ==> r[k] == NameRow(nodes[k], lower, dirname)
  {
    seq(|nodes|, k requires 0 <= k < |nodes| => NameRow(nodes[k], lower, dirname))
  }

  /** The nodes of the graph, one per `filePath`, in preorder. */
  function UniqueNodes(graph: GraphNode): seq<GraphNode>
  {
    Unique(FlatGraph(graph), (n: GraphNode) => n.filePath)
  }

  const NamesHeader := "filePath;fileName;folder;isLib"

  /** `getCSVNames(graph)`. */
  function GetCSVNames(graph: GraphNode, lower: string -> string, dirname: string -> string): string
  {
    NamesHeader + "\n" + Join(NameRows(UniqueNodes(graph), lower, dirname), "\n") + "\n"
  }

  /** `names.csv` is the header, one line per distinct file, and a final
      empty line after the trailing newline. */
  lemma CSVNamesLines(graph: GraphNode, lower: string -> string, dirname: string -> string)
    requires forall k :: 0 <= k < |UniqueNodes(graph)| ==> Free(NameRow(UniqueNodes(graph)[k], lower, dirname), '\n')
    ensures Split(GetCSVNames(graph, lower, dirname), '\n')
            == [NamesHeader] + NameRows(UniqueNodes(graph), lower, dirname) + [""]
  {
    var rows := NameRows(UniqueNodes(graph), lower, dirname);
    assert graph in UniqueNodes(graph) by {
      UniqueKeepsFirst(FlatGraph(graph), (n: GraphNode) => n.filePath, 0);
    }
    LinesOf(NamesHeader, rows);
  }

  /** `header`, a newline, the joined rows and a newline split back into
      the header, the rows and an empty last line. */
  lemma LinesOf(header: string, rows: seq<string>)
    requires Free(header, '\n') && |rows| >= 1 && forall k :: 0 <= k < |rows| ==> Free(rows[k], '\n')
    ensures Split(header + "\n" + Join(rows, "\n") + "\n", '\n') == [header] + rows + [""]
  {
    var parts := [header] + rows + [""];
    var text := header + "\n" + Join(rows, "\n") + "\n";
    assert Join(parts, "\n") == text by {
      JoinConcat([header] + rows, [""], "\n");
      JoinConcat([header], rows, "\n");
      assert Join([""], "\n") == "" && Join([header], "\n") == header;
    }
    assert forall k :: 0 <= k < |parts| ==> Free(parts[k], '\n');
    SplitJoin(parts, '\n');
    assert Split(text, '\n') == parts;
  }

  /** The `parent;child` lines of one node. */
  function EdgeLines(node: GraphNode): (r: seq<string>)
    ensures |r| == |node.children|
    ensures forall j :: 0 <= j < |node.children| ==> r[j] == node.filePath + ";" + node.children[j].filePath
  {
    seq(|node.children|, j requires 0 <= j < |node.children| => node.filePath + ";" + node.children[j].filePath)
  }

  /** The number of child links of a list of nodes. */
  function EdgeCount(nodes: seq<GraphNode>): nat
  {
    if nodes == [] then 0 else |nodes[0].children| + EdgeCount(nodes[1..])
  }

  /** `nodes.flatMap(...)`: the link lines of every node, in order. */
  function Links(nodes: seq<GraphNode>): (r: seq<string>)
    ensures |r| == EdgeCount(nodes)
    ensures forall i, j :: 0 <= i < |nodes| && 0 <= j < |nodes[i].children| ==>
              nodes[i].filePath + ";" + nodes[i].children[j].filePath in r
  {
    if nodes == [] then []
    else
      var rest := Links(nodes[1..]);
      assert forall i :: 1 <= i < |nodes| ==> nodes[1..][i - 1] == nodes[i];
      EdgeLines(nodes[0]) + rest
  }

  /** `getAllLinks(graph)` as written: the header is `source,target` while
      the rows are separated by `;`. */
  function GetAllLinks(graph: GraphNode): string
  {
    "source,target\n" + Join(Links(UniqueNodes(graph)), "\n") + "\n"
  }

  /** The first line of the links file as written is `source,target`,
      one column when read with the `;` of its rows. */
  lemma AsWrittenLinksHeader(graph: GraphNode)
    ensures var lines := Split(GetAllLinks(graph), '\n');
            lines[0] == "source,target" && Split(lines[0], ';') == [lines[0]]
  {
    var rest := Join(Links(UniqueNodes(graph)), "\n") + "\n";
    var header := "source,target";
    HeaderFree(header);
    assert GetAllLinks(graph) == header + ['\n'] + rest;
    SplitAt(header, rest, '\n');
    SplitFree(header, ';');
  }

  lemma HeaderFree(header: string)
    requires header == "source,target"
    ensures Free(header, '\n') && Free(header, ';')
  {
  }

  /** The link file with a header in the rows' own `;` format. */
  function GetAllLinksFixed(graph: GraphNode): string
  {
    LinksHeader + "\n" + Join(Links(UniqueNodes(graph)), "\n") + "\n"
  }

  const LinksHeader := "source;target"

  /** The corrected header has the two columns of the rows. */
  lemma FixedHeaderColumns(fixed: string, source: string, target: string)
    requires fixed == LinksHeader && source == "source" && target == "target"
    ensures Split(fixed, ';') == [source, target]
  {
    HeaderWordsFree(source, target);
    SplitFree(target, ';');
    assert fixed == source + [';'] + target;
    SplitAt(source, target, ';');
  }

  lemma HeaderWordsFree(source: string, target: string)
    requires source == "source" && target == "target"
    ensures Free(source, ';') && Free(target, ';')
  {
  }

  /** Every line of the corrected links file, header included, has the
      two columns `source;target` when paths contain no `;` and no newline;
      with no links at all, an empty line follows the header. */
  lemma LinksFixedLines(graph: GraphNode)
    requires forall x :: x in UniqueNodes(graph) ==> (Free(x.filePath, ';') && Free(x.filePath, '\n')
                         && forall c :: c in x.children ==> Free(c.filePath, ';') && Free(c.filePath, '\n'))
    ensures var lines := Split(GetAllLinksFixed(graph), '\n');
            |lines| >= 2 && lines[0] == LinksHeader && lines[|lines| - 1] == ""
            && (Links(UniqueNodes(graph)) != [] ==>
                  |lines| == 2 + EdgeCount(UniqueNodes(graph))
                  && forall k :: 0 < k < |lines| - 1 ==> |Split(lines[k], ';')| == 2)
  {
    var nodes := UniqueNodes(graph);
    var links := Links(nodes);
    assert Free(LinksHeader, '\n');
    if links == [] {
      NoLinksLines(GetAllLinksFixed(graph));
    } else {
      LinkLinesShape(nodes);
      LinesOf(LinksHeader, links);
    }
  }

  /** With no links, the corrected text is the header and an empty line. */
  lemma NoLinksLines(text: string)
    requires text == LinksHeader + "\n" + "" + "\n"
    ensures Split(text, '\n') == [LinksHeader, "", ""]
  {
    assert Free(LinksHeader, '\n');
    assert text == LinksHeader + ['\n'] + ("" + "\n");
    SplitAt(LinksHeader, "" + "\n", '\n');
    SplitAt("", "", '\n');
    assert FindChar("", '\n') == 0;
  }

  lemma LinkLinesShape(nodes: seq<GraphNode>)
    requires forall x :: x in nodes ==> (Free(x.filePath, ';') && Free(x.filePath, '\n')
                         && forall c :: c in x.children ==> Free(c.filePath, ';') && Free(c.filePath, '\n'))
    ensures forall k :: 0 <= k < |Links(nodes)| ==>
              Free(Links(nodes)[k], '\n') && |Split(Links(nodes)[k], ';')| == 2
  {
    if nodes != [] {
      LinkLinesShape(nodes[1..]);
      var node := nodes[0];
      forall j | 0 <= j < |node.children|
        ensures Free(EdgeLines(node)[j], '\n') && |Split(EdgeLines(node)[j], ';')| == 2
      {
        var child := node.children[j];
        assert child in node.children;
        SplitAt(node.filePath, child.filePath, ';');
        FreeConcat(node.filePath + ";", child.filePath, '\n');
        FreeConcat(node.filePath, ";", '\n');
        assert FindChar(child.filePath, ';') == |child.filePath|;
      }
    }
  }
}
