/**
 * `GridIndex`: a uniform grid over a square of side `gridSize`, cut into
 * `N * N` cells of side `cellSize`; each cell's entities sit in a bucket
 * of a `Map` keyed by the cell number `x * N + y`.
 *
 * An entity's `position()` is read by the index at the moment of each
 * call, so it is a parameter here: a point for `Insert` and `Remove`, and
 * a function from entities to points for `Query`.
 */
module SpaceIndex {
  import opened Wrappers
  import opened JsMaps

  datatype Point = Point(x: real, y: real)

  /** `Math.ceil`. */
  function Ceil(x: real): (n: int)
    ensures x <= n as real < x + 1.0
  {
    -((-x).Floor)
  }

  /** `Math.floor(v / cellSize)`: the column or row of a coordinate. */
  function Cell(v: real, cellSize: real): int
    requires cellSize > 0.0
  {
    (v / cellSize).Floor
  }

  /** `d < r` for the Euclidean distance `d` between `p` and `q`, without
      the square root: `d` is never negative, so it holds exactly when `r`
      is positive and `d * d < r * r`. */
  predicate Within(p: Point, q: Point, r: real)
  {
    r > 0.0 && (p.x - q.x) * (p.x - q.x) + (p.y - q.y) * (p.y - q.y) < r * r
  }

  /** A visited cell, as `queryBuckets` yields it. */
  datatype Visit<T> = Visit(bucket: Option<seq<T>>, x: real, y: real)

  /** The cells `(i, y)` for `y` from `lo` up to, not including, `hi`. */
  function Row(i: int, lo: int, hi: int): seq<(int, int)>
    decreases hi - lo
  {
    if hi <= lo then [] else Row(i, lo, hi - 1) + [(i, hi - 1)]
  }

  /** The cells of columns `xLo` up to, not including, `xHi`, row by row
      within each column, as the two nested loops visit them. */
  function Cells(xLo: int, xHi: int, yLo: int, yHi: int): seq<(int, int)>
    decreases xHi - xLo
  {
    if xHi <= xLo then [] else Cells(xLo, xHi - 1, yLo, yHi) + Row(xHi - 1, yLo, yHi)
  }

  /** A row holds exactly the cells of its column in its range. */
  lemma {:induction false} RowExact(i: int, lo: int, hi: int, c: (int, int))
    ensures c in Row(i, lo, hi) <==> c.0 == i && lo <= c.1 < hi
    decreases hi - lo
  {
    if lo < hi {
      RowExact(i, lo, hi - 1, c);
    }
  }

  /** The visited cells are exactly those of the rectangle, each once. */
  lemma {:induction false} CellsExact(xLo: int, xHi: int, yLo: int, yHi: int, c: (int, int))
    ensures c in Cells(xLo, xHi, yLo, yHi) <==> xLo <= c.0 < xHi && yLo <= c.1 < yHi
    decreases xHi - xLo
  {
    if xLo < xHi {
      CellsExact(xLo, xHi - 1, yLo, yHi, c);
      RowExact(xHi - 1, yLo, yHi, c);
    }
  }

  /** The entities of the given buckets that are within `r` of `pos`, in order. */
  function Found<T(==,!new)>(visits: seq<Visit<T>>, pos: Point, r: real, at: T -> Point): seq<T>
  {
    if visits == [] then []
    else
      var last := visits[|visits| - 1];
      Found(visits[..|visits| - 1], pos, r, at)
        + (if last.bucket.Some? then Near(last.bucket.value, pos, r, at) else [])
  }

  /** The entities of one bucket that are within `r` of `pos`, in order. */
  function Near<T(==,!new)>(bucket: seq<T>, pos: Point, r: real, at: T -> Point): (s: seq<T>)
    ensures forall e :: e in s <==> e in bucket && Within(at(e), pos, r)
  {
    if bucket == [] then []
    else
      var e := bucket[|bucket| - 1];
      Near(bucket[..|bucket| - 1], pos, r, at) + (if Within(at(e), pos, r) then [e] else [])
  }

  /** A query returns exactly the entities of the visited buckets that are
      within `r` of `pos`. */
  lemma {:induction false} FoundExact<T(!new)>(visits: seq<Visit<T>>, pos: Point, r: real, at: T -> Point, e: T)
    ensures e in Found(visits, pos, r, at) <==>
              Within(at(e), pos, r) && exists k :: 0 <= k < |visits| && visits[k].bucket.Some? && e in visits[k].bucket.value
    decreases |visits|
  {
    if visits != [] {
      var init := visits[..|visits| - 1];
      FoundExact(init, pos, r, at, e);
      if e in Found(visits, pos, r, at) && e !in Found(init, pos, r, at) {
        assert visits[|visits| - 1].bucket.Some?;
      }
      assert forall k :: 0 <= k < |init| ==> init[k] == visits[k];
    }
  }

  /** The bucket under `index`, empty when there is none. */
  function Bucket<T>(grid: JsMap<int, seq<T>>, index: int): seq<T>
  {
    if index in grid.vals then grid.vals[index] else []
  }

  /** The key of the bucket of cell `c` in a grid of `n` cells a side. */
  function Key(c: (int, int), n: int): int
  {
    c.0 * n + c.1
  }

  /** What `queryBuckets` yields for the cell `c`: its bucket (if any)
      and its corner. */
  function VisitOf<T>(grid: JsMap<int, seq<T>>, n: int, cellSize: real, c: (int, int)): Visit<T>
  {
    Visit(grid.Get(Key(c, n)), c.0 as real * cellSize, c.1 as real * cellSize)
  }

  /** The visits are those of `cells`, one for one. */
  ghost predicate VisitsCells<T>(visits: seq<Visit<T>>, cells: seq<(int, int)>, grid: JsMap<int, seq<T>>, n: int, cellSize: real)
  {
    |visits| == |cells| && forall k :: 0 <= k < |cells| ==> visits[k] == VisitOf(grid, n, cellSize, cells[k])
  }

  /** Visiting one more cell extends the visits by its own. */
  lemma VisitsCellsAppend<T>(visits: seq<Visit<T>>, cells: seq<(int, int)>, grid: JsMap<int, seq<T>>, n: int, cellSize: real,
                             v: Visit<T>, c: (int, int))
    requires VisitsCells(visits, cells, grid, n, cellSize) && v == VisitOf(grid, n, cellSize, c)
    ensures VisitsCells(visits + [v], cells + [c], grid, n, cellSize)
  {
    forall k | 0 <= k < |cells| + 1
      ensures (visits + [v])[k] == VisitOf(grid, n, cellSize, (cells + [c])[k])
    {
      if k < |cells| {
        assert (visits + [v])[k] == visits[k] && (cells + [c])[k] == cells[k];
      }
    }
  }

  /** A found entity is near `pos` and in the bucket of a visited cell. */
  lemma FoundIsVisited<T(!new)>(visits: seq<Visit<T>>, cells: seq<(int, int)>, grid: JsMap<int, seq<T>>, n: int, cellSize: real,
                                   pos: Point, r: real, at: T -> Point, e: T)
    requires VisitsCells(visits, cells, grid, n, cellSize) && e in Found(visits, pos, r, at)
    ensures Within(at(e), pos, r) && exists c :: c in cells && e in Bucket(grid, Key(c, n))
  {
    FoundExact(visits, pos, r, at, e);
    var k :| 0 <= k < |visits| && visits[k].bucket.Some? && e in visits[k].bucket.value;
    assert cells[k] in cells;
  }

  /** An entity near `pos` in the bucket of a visited cell is found. */
  lemma VisitedIsFound<T(!new)>(visits: seq<Visit<T>>, cells: seq<(int, int)>, grid: JsMap<int, seq<T>>, n: int, cellSize: real,
                                   pos: Point, r: real, at: T -> Point, e: T, c: (int, int))
    requires VisitsCells(visits, cells, grid, n, cellSize)
    requires Within(at(e), pos, r) && c in cells && e in Bucket(grid, Key(c, n))
    ensures e in Found(visits, pos, r, at)
  {
    var k :| 0 <= k < |cells| && cells[k] == c;
    assert visits[k].bucket.Some? && e in visits[k].bucket.value;
    FoundExact(visits, pos, r, at, e);
  }

  /** All the entities of the buckets of `keys`, in key order. */
  function Flatten<T>(keys: seq<int>, vals: map<int, seq<T>>): seq<T>
  {
    if keys == [] then []
    else
      var last := keys[|keys| - 1];
      Flatten(keys[..|keys| - 1], vals) + (if last in vals then vals[last] else [])
  }

  /** Buckets outside `keys` do not show in their flattening. */
  lemma {:induction false} FlattenFrame<T>(keys: seq<int>, vals: map<int, seq<T>>, k: int, b: seq<T>)
    requires k !in keys
    ensures Flatten(keys, vals[k := b]) == Flatten(keys, vals)
  {
    if keys != [] {
      assert keys[|keys| - 1] in keys;
      FlattenFrame(keys[..|keys| - 1], vals, k, b);
    }
  }

  /** The flattening of `keys` is that of all but the last key, then the
      last key's bucket. */
  lemma FlattenLast<T>(keys: seq<int>, vals: map<int, seq<T>>)
    requires keys != []
    ensures var last := keys[|keys| - 1];
            multiset(Flatten(keys, vals))
            == multiset(Flatten(keys[..|keys| - 1], vals)) + multiset(if last in vals then vals[last] else [])
  {
  }

  /** Adding the same entities to both sides of an equation keeps it. */
  lemma ExchangeBoth<T>(a: multiset<T>, a': multiset<T>, t: multiset<T>, v: multiset<T>, b: multiset<T>)
    requires a' + v == a + b
    ensures a' + t + v == a + t + b
  {
    calc {
      a' + t + v;
      a' + v + t;
      a + b + t;
      a + t + b;
    }
  }

  /** Replacing one bucket replaces its entities in the flattening. */
  lemma {:induction false} FlattenUpdate<T>(keys: seq<int>, vals: map<int, seq<T>>, k: int, b: seq<T>)
    requires k in keys && k in vals
    requires forall i, j :: 0 <= i < j < |keys| ==> keys[i] != keys[j]
    ensures multiset(Flatten(keys, vals[k := b])) + multiset(vals[k])
            == multiset(Flatten(keys, vals)) + multiset(b)
  {
    var init, last := keys[..|keys| - 1], keys[|keys| - 1];
    var after := vals[k := b];
    FlattenLast(keys, vals);
    FlattenLast(keys, after);
    if last == k {
      assert k !in init by {
        forall j | 0 <= j < |init| ensures init[j] != k { }
      }
      FlattenFrame(init, vals, k, b);
    } else {
      assert k in init by {
        var j :| 0 <= j < |keys| && keys[j] == k;
        assert init[j] == k;
      }
      FlattenUpdate(init, vals, k, b);
      var tail := if last in vals then vals[last] else [];
      assert (if last in after then after[last] else []) == tail;
      ExchangeBoth(multiset(Flatten(init, vals)), multiset(Flatten(init, after)), multiset(tail),
                   multiset(vals[k]), multiset(b));
    }
  }

  /** Entities on both sides of an equation cancel. */
  lemma Cancel<T>(x: multiset<T>, y: multiset<T>, c: multiset<T>)
    requires x + c == y + c
    ensures x == y
  {
    forall o ensures x[o] == y[o] {
      assert (x + c)[o] == (y + c)[o];
    }
  }

  /** Pushing onto a bucket adds one entity to the flattening. */
  lemma FlattenPush<T>(keys: seq<int>, vals: map<int, seq<T>>, k: int, e: T)
    requires k in keys && k in vals
    requires forall i, j :: 0 <= i < j < |keys| ==> keys[i] != keys[j]
    ensures multiset(Flatten(keys, vals[k := vals[k] + [e]])) == multiset(Flatten(keys, vals)) + multiset{e}
  {
    var b := vals[k];
    FlattenUpdate(keys, vals, k, b + [e]);
    assert multiset(b + [e]) == multiset(b) + multiset{e};
    Cancel(multiset(Flatten(keys, vals[k := b + [e]])), multiset(Flatten(keys, vals)) + multiset{e}, multiset(b));
  }

  /** Splicing one entity out of a bucket removes it from the flattening. */
  lemma FlattenSplice<T>(keys: seq<int>, vals: map<int, seq<T>>, k: int, i: nat)
    requires k in keys && k in vals && i < |vals[k]|
    requires forall i, j :: 0 <= i < j < |keys| ==> keys[i] != keys[j]
    ensures multiset(Flatten(keys, vals[k := vals[k][..i] + vals[k][i + 1..]])) + multiset{vals[k][i]}
            == multiset(Flatten(keys, vals))
  {
    var b := vals[k];
    var rest := b[..i] + b[i + 1..];
    var after := multiset(Flatten(keys, vals[k := rest]));
    FlattenUpdate(keys, vals, k, rest);
    assert b == b[..i] + [b[i]] + b[i + 1..];
    assert multiset(b) == multiset(rest) + multiset{b[i]};
    assert after + multiset{b[i]} + multiset(rest) == multiset(Flatten(keys, vals)) + multiset(rest);
    Cancel(after + multiset{b[i]}, multiset(Flatten(keys, vals)), multiset(rest));
  }

  /** A new bucket's entities come last in the flattening. */
  lemma FlattenAppend<T>(keys: seq<int>, vals: map<int, seq<T>>, k: int, b: seq<T>)
    requires k !in keys
    ensures Flatten(keys + [k], vals[k := b]) == Flatten(keys, vals) + b
  {
    assert (keys + [k])[..|keys|] == keys;
    FlattenFrame(keys, vals, k, b);
  }

  /** `bucket.indexOf(e)`: the first index of `e`, or -1. */
  function IndexIn<T(==,!new)>(bucket: seq<T>, e: T): (i: int)
    ensures -1 <= i < |bucket|
    ensures i == -1 <==> e !in bucket
    ensures i != -1 ==> bucket[i] == e && e !in bucket[..i]
  {
    if bucket == [] then -1
    else if bucket[0] == e then 0
    else
      var i := IndexIn(bucket[1..], e);
      assert i != -1 ==> bucket[1..][..i] == bucket[1..i + 1];
      if i == -1 then -1 else i + 1
  }

  class GridIndex<T(==,!new)> {
    var grid: JsMap<int, seq<T>>
    const cellSize: real
    const gridSize: real
    const N: int

    ghost predicate Valid()
      reads this
    {
      grid.Valid() && cellSize > 0.0 && N == Ceil(gridSize / cellSize)
    }

    /** `new GridIndex(cellSize, gridSize)`: an empty grid of
        `ceil(gridSize / cellSize)` cells a side. */
    constructor (cellSize: real, gridSize: real)
      requires cellSize > 0.0
      ensures Valid() && this.cellSize == cellSize && this.gridSize == gridSize
      ensures N == Ceil(gridSize / cellSize) && grid.keys == []
    {
      this.cellSize := cellSize;
      this.gridSize := gridSize;
      N := Ceil(gridSize / cellSize);
      grid := Empty();
    }

    /** `indexOf(v)`: the key of the cell holding `v`. */
    function IndexOf(v: Point): int
      requires cellSize > 0.0
    {
      Key((Cell(v.x, cellSize), Cell(v.y, cellSize)), N)
    }

    /** `iter()`: every stored entity, bucket by bucket in the order the
        buckets were created. */
    function Iter(): seq<T>
      requires Valid()
      reads this
    {
      Flatten(grid.keys, grid.vals)
    }

    /** `insert(entity)` for an entity at `position`: append it to its
        cell's bucket, creating the bucket when there is none. */
    method Insert(entity: T, position: Point)
      requires Valid()
      modifies this
      ensures Valid()
      ensures var index := IndexOf(position);
              && grid.Get(index) == Some(old(Bucket(grid, index)) + [entity])
              && (forall k :: k != index ==> grid.Get(k) == old(grid.Get(k)))
      ensures multiset(Iter()) == old(multiset(Iter())) + multiset{entity}
    {
      var index := IndexOf(position);
      var bucket := grid.Get(index);
      if bucket.Some? {
        FlattenPush(grid.keys, grid.vals, index, entity);
        grid := grid.Set(index, bucket.value + [entity]);
      } else {
        ghost var before := Iter();
        assert Bucket(grid, index) + [entity] == [entity];
        FlattenAppend(grid.keys, grid.vals, index, [entity]);
        grid := grid.Set(index, [entity]);
        assert Iter() == before + [entity];
        assert multiset(before + [entity]) == multiset(before) + multiset{entity};
      }
    }


    /** `remove(entity)` for an entity at `position`: delete the first
        occurrence of it from its cell's bucket, if it is there. */
    method Remove(entity: T, position: Point)
      requires Valid()
      modifies this
      ensures Valid()
      ensures var index := IndexOf(position);
              var bucket := old(Bucket(grid, index));
              var i := IndexIn(bucket, entity);
              && (i == -1 ==> grid == old(grid))
              && (i != -1 ==> grid.Get(index) == Some(bucket[..i] + bucket[i + 1..])
                              && grid.keys == old(grid.keys)
                              && (forall k :: k != index ==> grid.Get(k) == old(grid.Get(k))))
      ensures entity in old(Bucket(grid, IndexOf(position))) ==>
                multiset(Iter()) + multiset{entity} == old(multiset(Iter()))
      ensures entity !in old(Bucket(grid, IndexOf(position))) ==> Iter() == old(Iter())
    {
      var index := IndexOf(position);
      var bucket := grid.Get(index);
      if bucket.Some? {
        assert bucket.value == Bucket(grid, index);
        var i := IndexIn(bucket.value, entity);
        if i != -1 {
          var rest := bucket.value[..i] + bucket.value[i + 1..];
          ghost var before := multiset(Iter());
          FlattenSplice(grid.keys, grid.vals, index, i);
          grid := grid.Set(index, rest);
          assert multiset(Iter()) + multiset{entity} == before;
        }
      }
    }

    /** `queryBuckets(pos, r)`: the cells of the square of half-side `r`
        around `pos`, clamped to the grid, column by column. */
    method QueryBuckets(pos: Point, r: real) returns (visits: seq<Visit<T>>)
      requires Valid()
      ensures VisitsCells(visits, QueryCells(pos, r), grid, N, cellSize)
    {
      var xStart := Max(0, Cell(pos.x - r, cellSize));
      var yStart := Max(0, Cell(pos.y - r, cellSize));
      var xEnd := Min(N - 1, Cell(pos.x + r, cellSize));
      var yEnd := Min(N - 1, Cell(pos.y + r, cellSize));
      visits := [];
      ghost var cells: seq<(int, int)> := [];
      var i := xStart;
      while i <= xEnd
        invariant xStart <= i <= xEnd + 1 || (i == xStart && xEnd < xStart)
        invariant cells == Cells(xStart, i, yStart, yEnd + 1)
        invariant VisitsCells(visits, cells, grid, N, cellSize)
        decreases xEnd - i
      {
        var j := yStart;
        ghost var done := cells;
        while j <= yEnd
          invariant yStart <= j <= yEnd + 1 || (j == yStart && yEnd < yStart)
          invariant done == cells + Row(i, yStart, j)
          invariant VisitsCells(visits, done, grid, N, cellSize)
          decreases yEnd - j
        {
          var visit := VisitOf(grid, N, cellSize, (i, j));
          VisitsCellsAppend(visits, done, grid, N, cellSize, visit, (i, j));
          visits := visits + [visit];
          done := done + [(i, j)];
          j := j + 1;
        }
        cells := done;
        i := i + 1;
      }
      if xEnd < xStart {
        assert Cells(xStart, xEnd + 1, yStart, yEnd + 1) == [];
      }
    }

    /** The cells `queryBuckets` visits: those of the square of half-side
        `r` around `pos`, clamped to the grid. */
    function QueryCells(pos: Point, r: real): seq<(int, int)>
      requires cellSize > 0.0
    {
      Cells(Max(0, Cell(pos.x - r, cellSize)), Min(N - 1, Cell(pos.x + r, cellSize)) + 1,
            Max(0, Cell(pos.y - r, cellSize)), Min(N - 1, Cell(pos.y + r, cellSize)) + 1)
    }

    /** `query(pos, r)`: the entities of the visited buckets whose current
        position (`at`) is strictly nearer than `r` to `pos`. */
    method Query(pos: Point, r: real, at: T -> Point) returns (found: seq<T>)
      requires Valid()
      ensures forall e :: e in found <==>
                Within(at(e), pos, r) && exists c :: c in QueryCells(pos, r) && e in Bucket(grid, Key(c, N))
    {
      var visits := QueryBuckets(pos, r);
      found := [];
      var k := 0;
      while k < |visits|
        invariant k <= |visits| && found == Found(visits[..k], pos, r, at)
      {
        var bucket := visits[k].bucket;
        if bucket.Some? {
          var b := bucket.value;
          var near := [];
          var m := 0;
          while m < |b|
            invariant m <= |b| && near == Near(b[..m], pos, r, at)
          {
            if Within(at(b[m]), pos, r) {
              near := near + [b[m]];
            }
            assert b[..m + 1][..m] == b[..m];
            m := m + 1;
          }
          assert b[..m] == b;
          found := found + near;
        }
        assert visits[..k + 1][..k] == visits[..k];
        k := k + 1;
      }
      assert visits[..k] == visits;
      assert VisitsCells(visits, QueryCells(pos, r), grid, N, cellSize);
      QueryMeaning(visits, pos, r, at);
    }

    /** The found entities are those of the visited cells' buckets within `r`. */
    lemma QueryMeaning(visits: seq<Visit<T>>, pos: Point, r: real, at: T -> Point)
      requires Valid() && VisitsCells(visits, QueryCells(pos, r), grid, N, cellSize)
      ensures forall e :: e in Found(visits, pos, r, at) <==>
                Within(at(e), pos, r) && exists c :: c in QueryCells(pos, r) && e in Bucket(grid, Key(c, N))
    {
      var cells := QueryCells(pos, r);
      forall e | true
        ensures e in Found(visits, pos, r, at) <==>
                Within(at(e), pos, r) && exists c :: c in cells && e in Bucket(grid, Key(c, N))
      {
        if e in Found(visits, pos, r, at) {
          FoundIsVisited(visits, cells, grid, N, cellSize, pos, r, at, e);
        }
        if Within(at(e), pos, r) && exists c :: c in cells && e in Bucket(grid, Key(c, N)) {
          var c :| c in cells && e in Bucket(grid, Key(c, N));
          VisitedIsFound(visits, cells, grid, N, cellSize, pos, r, at, e, c);
        }
      }
    }

    /** The index misses nothing: an entity stored under the cell of its
        position `p`, inside the grid and nearer than `r` to `pos`, is in
        the bucket of a cell the query visits. */
    lemma NearIsVisited(pos: Point, r: real, e: T, p: Point)
      requires Valid() && e in Bucket(grid, IndexOf(p))
      requires 0.0 <= p.x < gridSize && 0.0 <= p.y < gridSize
      requires Within(p, pos, r)
      ensures exists c :: c in QueryCells(pos, r) && e in Bucket(grid, Key(c, N))
    {
      var c := (Cell(p.x, cellSize), Cell(p.y, cellSize));
      WithinBoth(p, pos, r);
      CellBetween(pos.x, r, p.x, cellSize);
      CellBetween(pos.y, r, p.y, cellSize);
      CellInGrid(p.x, cellSize, gridSize, N);
      CellInGrid(p.y, cellSize, gridSize, N);
      CellsExact(Max(0, Cell(pos.x - r, cellSize)), Min(N - 1, Cell(pos.x + r, cellSize)) + 1,
                 Max(0, Cell(pos.y - r, cellSize)), Min(N - 1, Cell(pos.y + r, cellSize)) + 1, c);
    }
  }

  /** Nearer than `r` means nearer than `r` along each axis. */
  lemma WithinBoth(p: Point, q: Point, r: real)
    requires Within(p, q, r)
    ensures q.x - r < p.x < q.x + r && q.y - r < p.y < q.y + r
  {
    var dx, dy := p.x - q.x, p.y - q.y;
    assert dx * dx <= dx * dx + dy * dy && dy * dy <= dx * dx + dy * dy;
    SquareBelow(dx, r);
    SquareBelow(dy, r);
  }

  /** A number whose square is below `r * r` lies strictly between `-r` and `r`. */
  lemma SquareBelow(d: real, r: real)
    requires r > 0.0 && d * d < r * r
    ensures -r < d < r
  {
  }

  /** A coordinate within `r` of `v` has its cell between those of `v - r`
      and `v + r`. */
  lemma CellBetween(v: real, r: real, w: real, cellSize: real)
    requires cellSize > 0.0 && v - r < w < v + r
    ensures Cell(v - r, cellSize) <= Cell(w, cellSize) <= Cell(v + r, cellSize)
  {
    CellMonotone(v - r, w, cellSize);
    CellMonotone(w, v + r, cellSize);
  }

  /** `Math.floor(v / cellSize)` grows with `v`. */
  lemma CellMonotone(a: real, b: real, cellSize: real)
    requires cellSize > 0.0 && a <= b
    ensures Cell(a, cellSize) <= Cell(b, cellSize)
  {
    assert b / cellSize - a / cellSize == (b - a) / cellSize;
  }

  /** A coordinate inside the grid has a cell inside the grid. */
  lemma CellInGrid(v: real, cellSize: real, gridSize: real, n: int)
    requires cellSize > 0.0 && 0.0 <= v < gridSize && n == Ceil(gridSize / cellSize)
    ensures 0 <= Cell(v, cellSize) < n
  {
    assert gridSize / cellSize - v / cellSize == (gridSize - v) / cellSize;
    assert v / cellSize >= 0.0;
  }

  function Max(a: int, b: int): int { if a < b then b else a }
  function Min(a: int, b: int): int { if a < b then a else b }

  /** Inside the grid, different cells have different keys; outside it
      they alias: the cell one past the last row of a column has the key
      of the first cell of the next column. */
  lemma CellKeys(n: int, i: int, j: int, i': int, j': int)
    requires 0 <= j < n && 0 <= j' < n
    ensures Key((i, j), n) == Key((i', j'), n) <==> i == i' && j == j'
    ensures Key((i, n), n) == Key((i + 1, 0), n)
  {
    if i < i' {
      assert i * n + j < (i + 1) * n <= i' * n;
    } else if i' < i {
      assert i' * n + j' < (i' + 1) * n <= i * n;
    }
  }
}
