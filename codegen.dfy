/**
 * The routine generator of `CodecBuilder`: `generateEncoderCode` and
 * `generateDecoderCode` walk the schema tree depth first, collect the nodes
 * they meet in an identity `Set` (a node already in the set is not added again,
 * and the set iterates in insertion order) and emit one declaration per
 * collected node that has one. What each emitted routine does when it runs is
 * `Codecs.Encode` / `Codecs.Decode`; this module is about which declarations
 * the generated module holds, in which order and under which names.
 */
module Codegen {
  import opened Wrappers
  import opened Codecs

  // ---------------------------------------------------------------------------
  // The traversal

  /** What the generator's `Set` compares: object identity. `Int` and `Str` are
      the two shared singletons `Int` and `Str`. */
  datatype Key = IntKey | StrKey | NodeKey(id: NodeId)

  function KeyOf(s: Schema): Key
  {
    match s
    case Int => IntKey
    case Str => StrKey
    case Arr(id, _, _) => NodeKey(id)
    case Opt(id, _, _) => NodeKey(id)
    case Rec(id, _, _) => NodeKey(id)
  }

  /** Every node `traverse` visits, in visiting order, shared nodes as often as
      they are reached: the node itself, then each child's subtree in order. */
  function Preorder(s: Schema): (r: seq<Schema>)
    ensures |r| >= 1 && r[0] == s
    decreases s, 1
  {
    [s] + Below(s, |Children(s)|)
  }

  /** The visits made for the first `n` children of `s`. */
  function Below(s: Schema, n: nat): seq<Schema>
    requires n <= |Children(s)|
    decreases s, 0, n
  {
    if n == 0 then [] else Below(s, n - 1) + Preorder(Children(s)[n - 1])
  }

  /** The same node object wherever it is reached: two visited nodes with the
      same identity are the same node (a JavaScript object is one value). */
  predicate IdentityConsistent(root: Schema)
  {
    Consistent(Preorder(root))
  }

  /** Nodes with the same identity are equal. */
  predicate Consistent(p: seq<Schema>)
  {
    forall i, j :: 0 <= i < |p| && 0 <= j < |p| && KeyOf(p[i]) == KeyOf(p[j]) ==> p[i] == p[j]
  }

  /** The identities held by a set (in insertion order). */
  function Keys(xs: seq<Schema>): set<Key>
  {
    set i | 0 <= i < |xs| :: KeyOf(xs[i])
  }

  /** No identity twice. */
  predicate Distinct(xs: seq<Schema>)
  {
    forall i, j :: 0 <= i < j < |xs| ==> KeyOf(xs[i]) != KeyOf(xs[j])
  }

  /** `set.add(node)`: a node already present leaves the set, and its order, alone. */
  function Insert(xs: seq<Schema>, n: Schema): seq<Schema>
  {
    if KeyOf(n) in Keys(xs) then xs else xs + [n]
  }

  /** The set after `add`ing `nodes` one after another. */
  function InsertAll(xs: seq<Schema>, nodes: seq<Schema>): seq<Schema>
    decreases |nodes|
  {
    if |nodes| == 0 then xs else Insert(InsertAll(xs, nodes[..|nodes| - 1]), nodes[|nodes| - 1])
  }

  /** The record nodes among `xs`: the only ones with `topLevelEncoderCode`. */
  function Records(xs: seq<Schema>): (r: seq<Schema>)
    ensures forall k :: 0 <= k < |r| ==> r[k].Rec? && r[k] in xs
    ensures forall k :: 0 <= k < |xs| && xs[k].Rec? ==> xs[k] in r
    decreases |xs|
  {
    if |xs| == 0 then []
    else Records(xs[..|xs| - 1]) + (if xs[|xs| - 1].Rec? then [xs[|xs| - 1]] else [])
  }

  lemma {:induction false} RecordsAppend(a: seq<Schema>, b: seq<Schema>)
    ensures Records(a + b) == Records(a) + Records(b)
    decreases |b|
  {
    if |b| == 0 {
      assert a + b == a;
    } else {
      assert (a + b)[..|a + b| - 1] == a + b[..|b| - 1];
      RecordsAppend(a, b[..|b| - 1]);
    }
  }

  lemma {:induction false} InsertAllAppend(xs: seq<Schema>, a: seq<Schema>, b: seq<Schema>)
    ensures InsertAll(xs, a + b) == InsertAll(InsertAll(xs, a), b)
    decreases |b|
  {
    if |b| == 0 {
      assert a + b == a;
    } else {
      assert (a + b)[..|a + b| - 1] == a + b[..|b| - 1];
      InsertAllAppend(xs, a, b[..|b| - 1]);
    }
  }

  /** The visits below `s` grow one child's subtree at a time. */
  lemma BelowStep(s: Schema, i: nat)
    requires i < |Children(s)|
    ensures [s] + Below(s, i + 1) == ([s] + Below(s, i)) + Preorder(Children(s)[i])
  {
    var below, sub := Below(s, i), Preorder(Children(s)[i]);
    assert Below(s, i + 1) == below + sub;
    assert [s] + (below + sub) == ([s] + below) + sub;
  }

  lemma RecordsOfOne(s: Schema)
    ensures Records([s] + Below(s, 0)) == if s.Rec? then [s] else []
  {
    assert [s] + Below(s, 0) == [s];
    assert [s][..0] == [];
  }

  lemma InsertAllOfOne(collected: seq<Schema>, s: Schema)
    ensures InsertAll(collected, [s] + Below(s, 0)) == Insert(collected, s)
  {
    assert [s] + Below(s, 0) == [s];
    assert [s][..0] == [];
  }

  lemma TraverseRecordsStep(collected: seq<Schema>, s: Schema, i: nat)
    requires i < |Children(s)|
    ensures InsertAll(collected, Records([s] + Below(s, i + 1)))
            == InsertAll(InsertAll(collected, Records([s] + Below(s, i))), Records(Preorder(Children(s)[i])))
  {
    BelowStep(s, i);
    RecordsAppend([s] + Below(s, i), Preorder(Children(s)[i]));
    InsertAllAppend(collected, Records([s] + Below(s, i)), Records(Preorder(Children(s)[i])));
  }

  lemma TraverseAllStep(collected: seq<Schema>, s: Schema, i: nat)
    requires i < |Children(s)|
    ensures InsertAll(collected, [s] + Below(s, i + 1))
            == InsertAll(InsertAll(collected, [s] + Below(s, i)), Preorder(Children(s)[i]))
  {
    BelowStep(s, i);
    InsertAllAppend(collected, [s] + Below(s, i), Preorder(Children(s)[i]));
  }

  /** `traverse` of `generateEncoderCode`: adds to the set the record nodes of the
      subtree of `s`, in visiting order. */
  method TraverseRecords(s: Schema, collected: seq<Schema>) returns (r: seq<Schema>)
    ensures r == InsertAll(collected, Records(Preorder(s)))
    decreases s
  {
    r := collected;
    if s.Rec? {
      r := Insert(r, s);
    }
    RecordsOfOne(s);
    assert r == InsertAll(collected, Records([s] + Below(s, 0))) by {
      if s.Rec? { assert [s][..0] == []; }
    }
    var children := Children(s);
    for i := 0 to |children|
      invariant r == InsertAll(collected, Records([s] + Below(s, i)))
    {
      r := TraverseRecords(children[i], r);
      TraverseRecordsStep(collected, s, i);
    }
  }

  /** `traverse` of `generateDecoderCode`: adds every node of the subtree of `s`,
      in visiting order. */
  method TraverseAll(s: Schema, collected: seq<Schema>) returns (r: seq<Schema>)
    ensures r == InsertAll(collected, Preorder(s))
    decreases s
  {
    r := Insert(collected, s);
    InsertAllOfOne(collected, s);
    var children := Children(s);
    for i := 0 to |children|
      invariant r == InsertAll(collected, [s] + Below(s, i))
    {
      r := TraverseAll(children[i], r);
      TraverseAllStep(collected, s, i);
    }
  }

  // ---------------------------------------------------------------------------
  // What the set holds

  lemma {:induction false} KeysAppend(xs: seq<Schema>, ys: seq<Schema>)
    ensures Keys(xs + ys) == Keys(xs) + Keys(ys)
  {
    forall k | k in Keys(xs + ys) ensures k in Keys(xs) + Keys(ys) {
      var i :| 0 <= i < |xs + ys| && KeyOf((xs + ys)[i]) == k;
      if i >= |xs| { assert KeyOf(ys[i - |xs|]) == k; }
    }
    forall k | k in Keys(xs) ensures k in Keys(xs + ys) {
      var i :| 0 <= i < |xs| && KeyOf(xs[i]) == k;
      assert (xs + ys)[i] == xs[i];
    }
    forall k | k in Keys(ys) ensures k in Keys(xs + ys) {
      var i :| 0 <= i < |ys| && KeyOf(ys[i]) == k;
      assert (xs + ys)[|xs| + i] == ys[i];
    }
  }

  /** Adding nodes to a set without repeats keeps it without repeats, keeps what
      was there in place, adds exactly the identities of the new nodes, and adds
      only nodes taken from them. */
  lemma {:induction false} InsertAllFacts(xs: seq<Schema>, nodes: seq<Schema>)
    requires Distinct(xs)
    ensures var r := InsertAll(xs, nodes);
            Distinct(r) && |xs| <= |r| && r[..|xs|] == xs
            && Keys(r) == Keys(xs) + Keys(nodes)
            && forall p :: |xs| <= p < |r| ==> r[p] in nodes
    decreases |nodes|
  {
    if |nodes| > 0 {
      var init := nodes[..|nodes| - 1];
      var last := nodes[|nodes| - 1];
      InsertAllFacts(xs, init);
      var prev := InsertAll(xs, init);
      assert nodes == init + [last];
      KeysAppend(init, [last]);
      assert Keys([last]) == {KeyOf(last)};
      if KeyOf(last) !in Keys(prev) {
        KeysAppend(prev, [last]);
        forall i, j | 0 <= i < j < |prev + [last]|
          ensures KeyOf((prev + [last])[i]) != KeyOf((prev + [last])[j])
        {
          if j == |prev| { assert KeyOf(prev[i]) in Keys(prev); }
        }
        assert (prev + [last])[..|xs|] == prev[..|xs|];
      }
    }
  }

  /** `xs[i]` is the first visit of its node: no earlier visit has its identity. */
  predicate FirstVisit(xs: seq<Schema>, i: nat)
    requires i < |xs|
  {
    forall j :: 0 <= j < i ==> KeyOf(xs[j]) != KeyOf(xs[i])
  }

  /** The first visits among `xs[..n]`, in visiting order. */
  function FirstVisits(xs: seq<Schema>, n: nat): seq<Schema>
    requires n <= |xs|
  {
    if n == 0 then []
    else FirstVisits(xs, n - 1) + (if FirstVisit(xs, n - 1) then [xs[n - 1]] else [])
  }

  lemma {:induction false} FirstVisitsKeys(xs: seq<Schema>, n: nat)
    requires n <= |xs|
    ensures Keys(FirstVisits(xs, n)) == Keys(xs[..n])
  {
    if n > 0 {
      FirstVisitsKeys(xs, n - 1);
      var add := if FirstVisit(xs, n - 1) then [xs[n - 1]] else [];
      KeysAppend(FirstVisits(xs, n - 1), add);
      assert xs[..n] == xs[..n - 1] + [xs[n - 1]];
      KeysAppend(xs[..n - 1], [xs[n - 1]]);
      assert Keys([xs[n - 1]]) == {KeyOf(xs[n - 1])};
      if !FirstVisit(xs, n - 1) {
        var j :| 0 <= j < n - 1 && KeyOf(xs[j]) == KeyOf(xs[n - 1]);
        assert xs[..n - 1][j] == xs[j];
      }
    }
  }

  /** The set holds exactly the first visit of each node, in the order of the
      first visits: the generator declares each node where `traverse` first
      met it. */
  lemma {:induction false} InsertAllIsFirstVisits(xs: seq<Schema>, n: nat)
    requires n <= |xs|
    ensures InsertAll([], xs[..n]) == FirstVisits(xs, n)
  {
    if n > 0 {
      InsertAllIsFirstVisits(xs, n - 1);
      assert xs[..n][..n - 1] == xs[..n - 1];
      FirstVisitsKeys(xs, n - 1);
      var prev := FirstVisits(xs, n - 1);
      if FirstVisit(xs, n - 1) {
        var ys := xs[..n - 1];
        forall j | 0 <= j < |ys| ensures KeyOf(ys[j]) != KeyOf(xs[n - 1]) {
          assert ys[j] == xs[j];
        }
        assert KeyOf(xs[n - 1]) !in Keys(xs[..n - 1]);
      } else {
        var j :| 0 <= j < n - 1 && KeyOf(xs[j]) == KeyOf(xs[n - 1]);
        assert KeyOf(xs[..n - 1][j]) == KeyOf(xs[n - 1]);
      }
    }
  }

  // ---------------------------------------------------------------------------
  // The emitted declarations

  /** The kinds of top-level declaration the generator emits. */
  datatype DeclKind =
    | TypeDeclaration     // `export type <Name> = { ... }`
    | EncoderRoutine      // `function <Name>_encoder_fn(encoder, obj)`
    | DecoderRoutine      // `<name>_decoder_func`, `<name>_array_item_decoder_func`
                          // or `<name>_optional_item_decoder_func`

  datatype Decl = Decl(kind: DeclKind, node: Schema)

  /** The name under which a declaration is emitted, derived from the node's
      declared `name`. */
  function DeclName(d: Decl): string
  {
    match d.kind
    case TypeDeclaration => TypeName(d.node)
    case EncoderRoutine => EncoderFnName(d.node)
    case DecoderRoutine => DecoderFnName(d.node)
  }

  function EncoderFnName(s: Schema): string
  {
    if s.Rec? then s.name + "_encoder_fn" else ""
  }

  function DecoderFnName(s: Schema): string
  {
    match s
    case Rec(_, name, _) => name + "_decoder_func"
    case Arr(_, _, name) => name + "_array_item_decoder_func"
    case Opt(_, _, name) => name + "_optional_item_decoder_func"
    case _ => ""
  }

  /** A generated module: its declarations in emission order and the routine it
      exports (`moduleEncoder` or `moduleDecoder`). */
  datatype GeneratedModule = GeneratedModule(decls: seq<Decl>, exported: string)

  /** The nodes whose encoder routines are emitted, in set order. */
  function EncoderNodes(root: Schema): seq<Schema>
  {
    InsertAll([], Records(Preorder(root)))
  }

  /** The nodes the decoder generator collects, in set order. */
  function DecoderNodes(root: Schema): seq<Schema>
  {
    InsertAll([], Preorder(root))
  }

  /** Whether the generator emits a declaration of `kind` for node `n`: type
      declarations and encoder routines for records (`typeDeclaration`,
      `topLevelEncoderCode`), decoder routines for records, arrays and
      optionals (`topLevelDecoderCode`). */
  predicate Has(kind: DeclKind, n: Schema)
  {
    match kind
    case TypeDeclaration => n.Rec?
    case EncoderRoutine => n.Rec?
    case DecoderRoutine => n.Rec? || n.Arr? || n.Opt?
  }

  /** The declarations of `kind` for each node of `nodes` that has one, in order. */
  function DeclsOf(kind: DeclKind, nodes: seq<Schema>): (r: seq<Decl>)
    ensures forall k :: 0 <= k < |r| ==> r[k].kind == kind && r[k].node in nodes && Has(kind, r[k].node)
    decreases |nodes|
  {
    if |nodes| == 0 then []
    else
      var n := nodes[|nodes| - 1];
      DeclsOf(kind, nodes[..|nodes| - 1]) + (if Has(kind, n) then [Decl(kind, n)] else [])
  }

  /** Every node that has a declaration of `kind` gets it. */
  lemma {:induction false} DeclsOfComplete(kind: DeclKind, nodes: seq<Schema>, n: Schema)
    requires n in nodes && Has(kind, n)
    ensures Decl(kind, n) in DeclsOf(kind, nodes)
    decreases |nodes|
  {
    if nodes[|nodes| - 1] != n {
      var k :| 0 <= k < |nodes| && nodes[k] == n;
      assert nodes[..|nodes| - 1][k] == n;
      DeclsOfComplete(kind, nodes[..|nodes| - 1], n);
    }
  }

  /** One pass of a generator over the collected nodes: the declaration of
      `kind` of each node that has one, pushed in set order. */
  method EmitDecls(kind: DeclKind, nodes: seq<Schema>) returns (decls: seq<Decl>)
    ensures decls == DeclsOf(kind, nodes)
  {
    decls := [];
    for k := 0 to |nodes|
      invariant decls == DeclsOf(kind, nodes[..k])
    {
      assert nodes[..k + 1][..k] == nodes[..k];
      if Has(kind, nodes[k]) {
        decls := decls + [Decl(kind, nodes[k])];
      }
    }
    assert nodes[..|nodes|] == nodes;
  }

  /** `generateEncoderCode`: one `<Name>_encoder_fn` per record node reached from
      the root, each once, the root's first, and the root's routine exported. */
  method GenerateEncoderCode(root: Schema) returns (m: GeneratedModule)
    requires root.Rec?
    ensures m.decls == DeclsOf(EncoderRoutine, EncoderNodes(root))
    ensures m.exported == root.name + "_encoder_fn"
    ensures |m.decls| >= 1 && DeclName(m.decls[0]) == m.exported
  {
    var nodes := TraverseRecords(root, []);
    EncoderNodesExact(root);
    var decls := EmitDecls(EncoderRoutine, nodes);
    m := GeneratedModule(decls, root.name + "_encoder_fn");
    EncoderRootFirst(root);
    DeclsOfHead(EncoderRoutine, nodes);
  }

  /** `generateDecoderCode`: the type declarations of the record nodes, then the
      decoder routines of the record, array and optional nodes, each in set
      order; the root record's `<Name>_decoder_func` is exported. */
  method GenerateDecoderCode(root: Schema) returns (m: GeneratedModule)
    requires root.Rec?
    ensures m.decls == DeclsOf(TypeDeclaration, DecoderNodes(root)) + DeclsOf(DecoderRoutine, DecoderNodes(root))
    ensures m.exported == root.name + "_decoder_func"
    ensures exists k :: 0 <= k < |m.decls| && m.decls[k].kind == DecoderRoutine && DeclName(m.decls[k]) == m.exported
    ensures forall i, j :: (0 <= i < |m.decls| && 0 <= j < |m.decls| && m.decls[i].kind == TypeDeclaration
                            && m.decls[j].kind == DecoderRoutine) ==> i < j
  {
    var nodes := TraverseAll(root, []);
    var types := EmitDecls(TypeDeclaration, nodes);
    var routines := EmitDecls(DecoderRoutine, nodes);
    m := GeneratedModule(types + routines, root.name + "_decoder_func");
    DecoderRootFirst(root);
    DeclsOfHead(DecoderRoutine, nodes);
    assert m.decls[|types|] == routines[0];
  }

  lemma {:induction false} DeclsOfHead(kind: DeclKind, nodes: seq<Schema>)
    requires |nodes| >= 1 && nodes[0].Rec?
    ensures |DeclsOf(kind, nodes)| >= 1 && DeclsOf(kind, nodes)[0] == Decl(kind, nodes[0])
    decreases |nodes|
  {
    if |nodes| > 1 {
      assert nodes[..|nodes| - 1][0] == nodes[0];
      DeclsOfHead(kind, nodes[..|nodes| - 1]);
    } else {
      assert nodes[..0] == [];
    }
  }

  lemma {:induction false} InsertAllFirst(nodes: seq<Schema>)
    requires |nodes| >= 1
    ensures |InsertAll([], nodes)| >= 1 && InsertAll([], nodes)[0] == nodes[0]
    decreases |nodes|
  {
    if |nodes| > 1 {
      assert nodes[..|nodes| - 1][0] == nodes[0];
      InsertAllFirst(nodes[..|nodes| - 1]);
    } else {
      assert nodes[..0] == [];
      assert Keys([]) == {};
    }
  }

  lemma EncoderRootFirst(root: Schema)
    requires root.Rec?
    ensures |EncoderNodes(root)| >= 1 && EncoderNodes(root)[0] == root
  {
    var p := Preorder(root);
    RecordsAppend([root], p[1..]);
    assert p == [root] + p[1..];
    assert Records([root]) == [root] by { assert [root][..0] == []; }
    InsertAllFirst(Records(p));
  }

  lemma DecoderRootFirst(root: Schema)
    ensures |DecoderNodes(root)| >= 1 && DecoderNodes(root)[0] == root
  {
    InsertAllFirst(Preorder(root));
  }

  /** The encoder generator emits one routine per record node reachable from the
      root: no record twice, every record reached, and nothing else. */
  lemma EncoderNodesExact(root: Schema)
    ensures Distinct(EncoderNodes(root))
    ensures forall n :: n in EncoderNodes(root) ==> n.Rec? && n in Preorder(root)
    ensures forall n :: n in Preorder(root) && n.Rec? ==> KeyOf(n) in Keys(EncoderNodes(root))
  {
    var recs := Records(Preorder(root));
    InsertAllFacts([], recs);
    var r := EncoderNodes(root);
    forall n | n in Preorder(root) && n.Rec? ensures KeyOf(n) in Keys(r) {
      var i :| 0 <= i < |recs| && recs[i] == n;
    }
  }

  /** The decoder generator collects every node reachable from the root exactly
      once, in the order of their first visits. */
  lemma DecoderNodesExact(root: Schema)
    ensures Distinct(DecoderNodes(root))
    ensures Keys(DecoderNodes(root)) == Keys(Preorder(root))
    ensures forall n :: n in DecoderNodes(root) ==> n in Preorder(root)
    ensures DecoderNodes(root) == FirstVisits(Preorder(root), |Preorder(root)|)
  {
    var p := Preorder(root);
    InsertAllFacts([], p);
    assert Keys([]) == {};
    InsertAllIsFirstVisits(p, |p|);
    assert p[..|p|] == p;
  }

  // ---------------------------------------------------------------------------
  // Routine names

  /** No two declarations of a module share a name. */
  predicate NamesDistinct(decls: seq<Decl>)
  {
    forall i, j :: 0 <= i < j < |decls| ==> DeclName(decls[i]) != DeclName(decls[j])
  }

  /** Two different nodes declare `name`. */
  predicate Clash(decls: seq<Decl>, name: string)
  {
    exists i, j :: 0 <= i < j < |decls| && decls[i].node != decls[j].node
                   && DeclName(decls[i]) == name && DeclName(decls[j]) == name
  }

  /** Two arrays built without a `name` (the utils codec test builds
      `new ArraySerializable(Int)`) are both named `undefined`. */
  function TwoUnnamedArrays(): Schema
  {
    Rec(0, "Codec", [Field("arrOfInts", Arr(1, Int, "undefined")),
                     Field("arrOfCodecs", Arr(2, Rec(3, "Hello", [Field("hello", Int)]), "undefined"))])
  }

  lemma TwoUnnamedArraysPreorder()
    ensures var a1 := Arr(1, Int, "undefined");
            var hello := Rec(3, "Hello", [Field("hello", Int)]);
            var a2 := Arr(2, hello, "undefined");
            Preorder(TwoUnnamedArrays()) == [TwoUnnamedArrays(), a1, Int, a2, hello, Int]
  {
    var root := TwoUnnamedArrays();
    var a1 := Arr(1, Int, "undefined");
    var hello := Rec(3, "Hello", [Field("hello", Int)]);
    var a2 := Arr(2, hello, "undefined");
    assert Preorder(Int) == [Int] by { assert Below(Int, 0) == []; }
    assert Preorder(a1) == [a1, Int] by { assert Children(a1) == [Int]; }
    assert Preorder(hello) == [hello, Int] by { assert Children(hello) == [Int]; }
    assert Preorder(a2) == [a2, hello, Int] by { assert Children(a2) == [hello]; }
    assert Children(root) == [a1, a2];
  }

  /** With node identity respected, every visited node is collected. */
  lemma {:induction false} CollectedWhenVisited(p: seq<Schema>, n: Schema)
    requires Consistent(p) && n in p
    ensures n in InsertAll([], p)
  {
    InsertAllFacts([], p);
    assert Keys([]) == {};
    var d := InsertAll([], p);
    var i :| 0 <= i < |p| && p[i] == n;
    assert KeyOf(n) in Keys(p);
    var k :| 0 <= k < |d| && KeyOf(d[k]) == KeyOf(n);
    var j :| 0 <= j < |p| && p[j] == d[k];
  }

  /** Two routines of the same name after the type declarations. */
  lemma SameNameInRoutines(types: seq<Decl>, routines: seq<Decl>, a: Schema, b: Schema)
    requires Decl(DecoderRoutine, a) in routines && Decl(DecoderRoutine, b) in routines && a != b
    requires DecoderFnName(a) == DecoderFnName(b)
    ensures Clash(types + routines, DecoderFnName(a))
  {
    var decls := types + routines;
    var ia :| 0 <= ia < |routines| && routines[ia] == Decl(DecoderRoutine, a);
    var ib :| 0 <= ib < |routines| && routines[ib] == Decl(DecoderRoutine, b);
    assert decls[|types| + ia] == Decl(DecoderRoutine, a);
    assert decls[|types| + ib] == Decl(DecoderRoutine, b);
    if ia < ib {
      assert DeclName(decls[|types| + ia]) == DeclName(decls[|types| + ib]);
      assert decls[|types| + ia].node != decls[|types| + ib].node;
    } else {
      assert DeclName(decls[|types| + ib]) == DeclName(decls[|types| + ia]);
      assert decls[|types| + ib].node != decls[|types| + ia].node;
    }
  }

  /** Two different collected nodes with the same routine name both get a
      routine of that name in the decoder module. */
  lemma SameNameInDecls(nodes: seq<Schema>, a: Schema, b: Schema)
    requires a in nodes && b in nodes && a != b
    requires Has(DecoderRoutine, a) && Has(DecoderRoutine, b) && DecoderFnName(a) == DecoderFnName(b)
    ensures Clash(DeclsOf(TypeDeclaration, nodes) + DeclsOf(DecoderRoutine, nodes), DecoderFnName(a))
  {
    DeclsOfComplete(DecoderRoutine, nodes, a);
    DeclsOfComplete(DecoderRoutine, nodes, b);
    SameNameInRoutines(DeclsOf(TypeDeclaration, nodes), DeclsOf(DecoderRoutine, nodes), a, b);
  }

  /** As written, two different nodes reached from the root with the same
      routine name each get a routine of that name in the decoder module. */
  lemma SameNameCollides(root: Schema, a: Schema, b: Schema)
    requires IdentityConsistent(root) && a in Preorder(root) && b in Preorder(root) && a != b
    requires Has(DecoderRoutine, a) && Has(DecoderRoutine, b) && DecoderFnName(a) == DecoderFnName(b)
    ensures Clash(DeclsOf(TypeDeclaration, DecoderNodes(root)) + DeclsOf(DecoderRoutine, DecoderNodes(root)),
                  DecoderFnName(a))
  {
    CollectedWhenVisited(Preorder(root), a);
    CollectedWhenVisited(Preorder(root), b);
    SameNameInDecls(DecoderNodes(root), a, b);
  }

  lemma TwoUnnamedArraysConsistent()
    ensures IdentityConsistent(TwoUnnamedArrays())
  {
    var root := TwoUnnamedArrays();
    var a1 := Arr(1, Int, "undefined");
    var hello := Rec(3, "Hello", [Field("hello", Int)]);
    var a2 := Arr(2, hello, "undefined");
    TwoUnnamedArraysPreorder();
    FourNodesTwoIntsConsistent(Preorder(root), root, a1, a2, hello);
  }

  /** Four nodes of distinct identities and two `Int` leaves, in the order of
      the two-arrays schema, never share an identity between unequal nodes. */
  lemma FourNodesTwoIntsConsistent(p: seq<Schema>, root: Schema, a1: Schema, a2: Schema, hello: Schema)
    requires p == [root, a1, Int, a2, hello, Int]
    requires KeyOf(root) == NodeKey(0) && KeyOf(a1) == NodeKey(1) && KeyOf(a2) == NodeKey(2) && KeyOf(hello) == NodeKey(3)
    ensures Consistent(p)
  {
    var keys := [NodeKey(0), NodeKey(1), IntKey, NodeKey(2), NodeKey(3), IntKey];
    assert forall k :: 0 <= k < 6 ==> KeyOf(p[k]) == keys[k];
    forall i, j | 0 <= i < |p| && 0 <= j < |p| && KeyOf(p[i]) == KeyOf(p[j])
      ensures p[i] == p[j]
    {
      assert keys[i] == keys[j];
      assert i == j || (i in {2, 5} && j in {2, 5});
    }
  }

  /** The item routines of two arrays whose `name` is `undefined` share one
      name, and that name starts with the text `undefined`. */
  lemma UnnamedRoutineName(a1: Schema, a2: Schema)
    requires a1.Arr? && a2.Arr? && a1.name == a2.name == "undefined"
    ensures DecoderFnName(a1) == DecoderFnName(a2)
    ensures "undefined" <= DecoderFnName(a1)
  {
    assert DecoderFnName(a1)[..|a1.name|] == a1.name;
  }

  /** As written, the decoder module for the two unnamed arrays declares
      `undefined_array_item_decoder_func` twice, once per array; a module with
      two top-level functions of the same name does not load. */
  lemma UnnamedArraysCollide()
    ensures Clash(DeclsOf(TypeDeclaration, DecoderNodes(TwoUnnamedArrays()))
                  + DeclsOf(DecoderRoutine, DecoderNodes(TwoUnnamedArrays())),
                  DecoderFnName(Arr(1, Int, "undefined")))
  {
    var a1 := Arr(1, Int, "undefined");
    var a2 := Arr(2, Rec(3, "Hello", [Field("hello", Int)]), "undefined");
    UnnamedArraysReached();
    TwoUnnamedArraysConsistent();
    SameNameCollides(TwoUnnamedArrays(), a1, a2);
  }

  /** Both unnamed arrays are reached from the root. */
  lemma UnnamedArraysReached()
    ensures Arr(1, Int, "undefined") in Preorder(TwoUnnamedArrays())
    ensures Arr(2, Rec(3, "Hello", [Field("hello", Int)]), "undefined") in Preorder(TwoUnnamedArrays())
  {
    TwoUnnamedArraysPreorder();
    assert Preorder(TwoUnnamedArrays())[1] == Arr(1, Int, "undefined");
  }

  /** Why a module cannot be generated: a name declared by two different nodes. */
  datatype GenerateError = DuplicateName(name: string)

  /** The first name declared twice in `decls[..n]`, if any. */
  function FindDuplicate(decls: seq<Decl>, n: nat): (r: Option<string>)
    requires n <= |decls|
    ensures r.None? <==> forall i, j :: 0 <= i < j < n ==> DeclName(decls[i]) != DeclName(decls[j])
    ensures r.Some? ==> exists i, j :: 0 <= i < j < n && DeclName(decls[i]) == DeclName(decls[j]) == r.value
  {
    if n == 0 then None
    else
      match FindDuplicate(decls, n - 1)
      case Some(name) => Some(name)
      case None =>
        if exists i :: 0 <= i < n - 1 && DeclName(decls[i]) == DeclName(decls[n - 1])
        then Some(DeclName(decls[n - 1]))
        else None
  }

  /** `generateDecoderCode` with the declared names checked: the module is
      produced only when every emitted name is declared once, so every call in
      it refers to the routine of the node it was generated for; otherwise the
      clashing name is reported. */
  method GenerateCheckedDecoderCode(root: Schema) returns (r: Result<GeneratedModule, GenerateError>)
    requires root.Rec?
    ensures r.Ok? ==> NamesDistinct(r.value.decls)
                      && r.value.decls == DeclsOf(TypeDeclaration, DecoderNodes(root)) + DeclsOf(DecoderRoutine, DecoderNodes(root))
                      && r.value.exported == root.name + "_decoder_func"
    ensures r.Err? ==> var decls := DeclsOf(TypeDeclaration, DecoderNodes(root)) + DeclsOf(DecoderRoutine, DecoderNodes(root));
                       exists i, j :: 0 <= i < j < |decls| && DeclName(decls[i]) == DeclName(decls[j]) == r.error.name
  {
    var m := GenerateDecoderCode(root);
    match FindDuplicate(m.decls, |m.decls|)
    case Some(name) =>
      r := Err(DuplicateName(name));
    case None =>
      r := Ok(m);
  }

  /** The checked generator refuses the schema of two unnamed arrays. */
  lemma CheckedRefusesUnnamedArrays(m: GeneratedModule)
    requires m.decls == DeclsOf(TypeDeclaration, DecoderNodes(TwoUnnamedArrays()))
                        + DeclsOf(DecoderRoutine, DecoderNodes(TwoUnnamedArrays()))
    ensures FindDuplicate(m.decls, |m.decls|).Some?
  {
    UnnamedArraysCollide();
    assert !NamesDistinct(m.decls);
  }

  /** The top-level functions of the file `generateFile` builds: the decoder
      routines, then the encoder routines. Type declarations are erased when
      the file is transpiled, so they declare nothing at run time. */
  function ModuleFunctions(root: Schema): (r: seq<Decl>)
    ensures forall k :: 0 <= k < |r| ==> r[k].kind != TypeDeclaration
  {
    DeclsOf(DecoderRoutine, DecoderNodes(root)) + DeclsOf(EncoderRoutine, EncoderNodes(root))
  }

  /** The generated file is imported as an ES module, where two top-level
      functions of the same name are an early `SyntaxError`: the module loads
      exactly when its functions have distinct names. */
  predicate Loads(root: Schema)
  {
    NamesDistinct(ModuleFunctions(root))
  }

  /** A clash among some declarations is still one after more are appended. */
  lemma ClashExtends(decls: seq<Decl>, more: seq<Decl>, name: string)
    requires Clash(decls, name)
    ensures Clash(decls + more, name)
  {
    var i, j :| 0 <= i < j < |decls| && decls[i].node != decls[j].node
                && DeclName(decls[i]) == name && DeclName(decls[j]) == name;
    assert (decls + more)[i] == decls[i] && (decls + more)[j] == decls[j];
  }

  /** Two different reached nodes with the same routine name keep the module
      from loading. */
  lemma SameNameDoesNotLoad(root: Schema, a: Schema, b: Schema)
    requires IdentityConsistent(root) && a in Preorder(root) && b in Preorder(root) && a != b
    requires Has(DecoderRoutine, a) && Has(DecoderRoutine, b) && DecoderFnName(a) == DecoderFnName(b)
    ensures !Loads(root)
  {
    CollectedWhenVisited(Preorder(root), a);
    CollectedWhenVisited(Preorder(root), b);
    var routines := DeclsOf(DecoderRoutine, DecoderNodes(root));
    DeclsOfComplete(DecoderRoutine, DecoderNodes(root), a);
    DeclsOfComplete(DecoderRoutine, DecoderNodes(root), b);
    SameNameInRoutines([], routines, a, b);
    assert [] + routines == routines;
    ClashExtends(routines, DeclsOf(EncoderRoutine, EncoderNodes(root)), DecoderFnName(a));
    ClashNotDistinct(ModuleFunctions(root), DecoderFnName(a));
  }

  /** A name declared by two different nodes is declared twice. */
  lemma ClashNotDistinct(decls: seq<Decl>, name: string)
    requires Clash(decls, name)
    ensures !NamesDistinct(decls)
  {
    var i, j :| 0 <= i < j < |decls| && decls[i].node != decls[j].node
                && DeclName(decls[i]) == name && DeclName(decls[j]) == name;
    assert DeclName(decls[i]) == DeclName(decls[j]);
  }

  /** As written, the module generated for the two unnamed arrays does not
      load: it declares `undefined_array_item_decoder_func` twice. */
  lemma UnnamedArraysDoNotLoad(root: Schema)
    requires root == TwoUnnamedArrays()
    ensures !Loads(root)
  {
    UnnamedArraysReached();
    TwoUnnamedArraysConsistent();
    SameNameDoesNotLoad(root, Arr(1, Int, "undefined"), Arr(2, Rec(3, "Hello", [Field("hello", Int)]), "undefined"));
  }
}
