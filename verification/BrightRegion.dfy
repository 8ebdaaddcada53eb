/** The bright-region search of the PDF-aware OCR path: an explicit-stack flood
    fill that shares one `visited` grid between all components. */
module BrightRegion {
  import opened Collections
  import opened Options

  datatype Pixel = Pixel(x: int, y: int)

  /** Half-open bounding box: columns minX..endX, rows minY..endY. */
  datatype Box = Box(minX: int, minY: int, endX: int, endY: int)

  type Grid = seq<seq<int>>

  /** The connected component of every bright pixel. */
  type Labels = map<Pixel, set<Pixel>>

  /** Every row has the length of the first one. */
  ghost predicate Rectangular(rows: Grid) {
    forall i :: 0 <= i < |rows| ==> |rows[i]| == |rows[0]|
  }

  predicate Bright(rows: Grid, t: int, p: Pixel) {
    0 <= p.y < |rows| && 0 <= p.x < |rows[p.y]| && rows[p.y][p.x] >= t
  }

  predicate Adjacent(p: Pixel, q: Pixel) {
    || (p.y == q.y && (p.x == q.x + 1 || q.x == p.x + 1))
    || (p.x == q.x && (p.y == q.y + 1 || q.y == p.y + 1))
  }

  /** Neighbours are one step apart, along one axis. */
  lemma NeighboursExactly(p: Pixel, q: Pixel)
    ensures Adjacent(p, q) <==> Max(p.x - q.x, q.x - p.x) + Max(p.y - q.y, q.y - p.y) == 1
  {
  }

  /** Row order, the order in which the search starts its floods. */
  predicate Before(p: Pixel, q: Pixel) {
    p.y < q.y || (p.y == q.y && p.x < q.x)
  }

  // ----- The independent definition: 4-connected components by paths -----

  ghost predicate IsPath(rows: Grid, t: int, path: seq<Pixel>, p: Pixel, q: Pixel) {
    && |path| > 0 && path[0] == p && path[|path| - 1] == q
    && (forall i :: 0 <= i < |path| ==> Bright(rows, t, path[i]))
    && (forall i, j :: 0 <= i && j == i + 1 < |path| ==> Adjacent(path[i], path[j]))
  }

  ghost predicate Connected(rows: Grid, t: int, p: Pixel, q: Pixel) {
    exists path :: IsPath(rows, t, path, p, q)
  }

  ghost function BrightPixels(rows: Grid, t: int): set<Pixel> {
    set y, x | 0 <= y < |rows| && 0 <= x < |rows[y]| && rows[y][x] >= t :: Pixel(x, y)
  }

  ghost function Component(rows: Grid, t: int, p: Pixel): set<Pixel> {
    set q | q in BrightPixels(rows, t) && Connected(rows, t, p, q)
  }

  ghost function Components(rows: Grid, t: int): Labels {
    map p | p in BrightPixels(rows, t) :: Component(rows, t, p)
  }

  /** `box` is the smallest half-open box around the non-empty set `s`. */
  ghost predicate Tight(s: set<Pixel>, box: Box) {
    && (forall p :: p in s ==> box.minX <= p.x < box.endX && box.minY <= p.y < box.endY)
    && (exists p :: p in s && p.x == box.minX)
    && (exists p :: p in s && p.y == box.minY)
    && (exists p :: p in s && p.x == box.endX - 1)
    && (exists p :: p in s && p.y == box.endY - 1)
  }

  /** Among the components of bright pixels before the cursor `c`, `seed` starts the
      first one (in row order) of the largest size, and that size is enough. */
  ghost predicate FirstLargest(m: Labels, minArea: int, c: Pixel, seed: Pixel) {
    && seed in m && Before(seed, c) && |m[seed]| >= minArea
    && forall q :: q in m && Before(q, c) ==>
         |m[q]| <= |m[seed]| && (Before(q, seed) ==> |m[q]| < |m[seed]|)
  }

  /** What the search must return, and the area it must remember, once the pixels
      before the cursor are done. */
  ghost predicate Best(m: Labels, minArea: int, c: Pixel, best: Option<Box>, bestArea: nat) {
    match best
    case None => bestArea == 0 && forall q :: q in m && Before(q, c) ==> |m[q]| < minArea
    case Some(box) =>
      exists seed :: FirstLargest(m, minArea, c, seed) && Tight(m[seed], box) && bestArea == |m[seed]|
  }

  /** The cursor past the last row. */
  function End(rows: Grid): Pixel { Pixel(0, |rows|) }

  ghost predicate Answer(rows: Grid, t: int, minArea: int, best: Option<Box>) {
    exists bestArea :: Best(Components(rows, t), minArea, End(rows), best, bestArea)
  }

  lemma TightIsUnique(s: set<Pixel>, a: Box, b: Box)
    requires Tight(s, a) && Tight(s, b)
    ensures a == b
  {
  }

  /** The specification leaves the search no choice: there is one answer per grid. */
  lemma AnswerIsUnique(rows: Grid, t: int, minArea: int, a: Option<Box>, b: Option<Box>)
    requires Answer(rows, t, minArea, a) && Answer(rows, t, minArea, b)
    ensures a == b
  {
    var m := Components(rows, t);
    if a.Some? && b.Some? {
      var p :| FirstLargest(m, minArea, End(rows), p) && Tight(m[p], a.value);
      var q :| FirstLargest(m, minArea, End(rows), q) && Tight(m[q], b.value);
      assert !Before(p, q) && !Before(q, p);
      TightIsUnique(m[p], a.value, b.value);
    }
  }

  /** The question every caller asks: is there an answer at all? */
  lemma NoneExactlyWhenAllSmall(rows: Grid, t: int, minArea: int, best: Option<Box>)
    requires Answer(rows, t, minArea, best)
    ensures best == None <==> forall q :: Bright(rows, t, q) ==> |Component(rows, t, q)| < minArea
  {
    var m := Components(rows, t);
    forall q | Bright(rows, t, q) ensures q in m && Before(q, End(rows)) {
      assert q == Pixel(q.x, q.y);
    }
    if best.Some? {
      var seed :| FirstLargest(m, minArea, End(rows), seed);
      assert Bright(rows, t, seed) && |Component(rows, t, seed)| >= minArea;
    } else {
      forall q | Bright(rows, t, q) ensures |Component(rows, t, q)| < minArea {
        assert |m[q]| < minArea;
      }
    }
  }

  // ----- Facts about components -----

  lemma SelfConnected(rows: Grid, t: int, p: Pixel)
    requires Bright(rows, t, p)
    ensures Connected(rows, t, p, p)
  {
    assert IsPath(rows, t, [p], p, p);
  }

  lemma ConnectedStep(rows: Grid, t: int, p: Pixel, q: Pixel)
    requires Bright(rows, t, p) && Bright(rows, t, q) && Adjacent(p, q)
    ensures Connected(rows, t, p, q)
  {
    assert IsPath(rows, t, [p, q], p, q);
  }

  lemma ConnectedSym(rows: Grid, t: int, p: Pixel, q: Pixel)
    requires Connected(rows, t, p, q)
    ensures Connected(rows, t, q, p)
  {
    var path :| IsPath(rows, t, path, p, q);
    var back := seq(|path|, i requires 0 <= i < |path| => path[|path| - 1 - i]);
    assert IsPath(rows, t, back, q, p) by {
      forall i, j | 0 <= i && j == i + 1 < |back| ensures Adjacent(back[i], back[j]) {
        assert Adjacent(path[|path| - 1 - j], path[|path| - 1 - i]);
      }
    }
  }

  lemma ConnectedTrans(rows: Grid, t: int, p: Pixel, q: Pixel, r: Pixel)
    requires Connected(rows, t, p, q) && Connected(rows, t, q, r)
    ensures Connected(rows, t, p, r)
  {
    var a :| IsPath(rows, t, a, p, q);
    var b :| IsPath(rows, t, b, q, r);
    var c := a + b[1..];
    assert IsPath(rows, t, c, p, r) by {
      forall i, j | 0 <= i && j == i + 1 < |c| ensures Adjacent(c[i], c[j]) {
        if j >= |a| { assert Adjacent(b[i - |a| + 1], b[j - |a| + 1]); }
      }
    }
  }

  /** Connected pixels share one component. */
  lemma SameComponent(rows: Grid, t: int, p: Pixel, q: Pixel)
    requires Connected(rows, t, p, q)
    ensures Component(rows, t, p) == Component(rows, t, q)
  {
    ConnectedSym(rows, t, p, q);
    forall r ensures r in Component(rows, t, p) <==> r in Component(rows, t, q) {
      if r in Component(rows, t, p) { ConnectedTrans(rows, t, q, p, r); }
      if r in Component(rows, t, q) { ConnectedTrans(rows, t, p, q, r); }
    }
  }

  /** A set of bright pixels closed under bright neighbours. */
  ghost predicate Closed(rows: Grid, t: int, s: set<Pixel>) {
    forall a, b :: a in s && Bright(rows, t, b) && Adjacent(a, b) ==> b in s
  }

  lemma {:induction false} ClosedHoldsPath(rows: Grid, t: int, s: set<Pixel>, path: seq<Pixel>, p: Pixel, q: Pixel)
    requires IsPath(rows, t, path, p, q) && p in s && Closed(rows, t, s)
    ensures q in s
    decreases |path|
  {
    if |path| > 1 {
      var front := path[..|path| - 1];
      ClosedHoldsPath(rows, t, s, front, p, path[|path| - 2]);
      assert Adjacent(path[|path| - 2], path[|path| - 1]);
    }
  }

  /** A component is the least closed set around its pixels. */
  lemma ClosedHoldsComponent(rows: Grid, t: int, s: set<Pixel>, p: Pixel)
    requires p in s && Closed(rows, t, s)
    ensures Component(rows, t, p) <= s
  {
    forall q | q in Component(rows, t, p) ensures q in s {
      var path :| IsPath(rows, t, path, p, q);
      ClosedHoldsPath(rows, t, s, path, p, q);
    }
  }

  /** What the search needs of the labelling: bright pixels are partitioned, and bright
      neighbours lie in one part. */
  ghost predicate Partition(m: Labels) {
    && (forall p :: p in m ==> p in m[p])
    && (forall p, q :: p in m && q in m[p] ==> q in m && m[q] == m[p])
    && (forall p, q :: p in m && q in m && Adjacent(p, q) ==> q in m[p])
  }

  /** `m` labels the bright pixels of the grid with the least closed sets around them. */
  ghost predicate Labelling(m: Labels, rows: Grid, t: int) {
    && Partition(m)
    && (forall p :: p in m <==> Bright(rows, t, p))
    && (forall s, p :: Closed(rows, t, s) && p in m && p in s ==> m[p] <= s)
  }

  /** The path-defined components partition the bright pixels and are the least closed sets around them. */
  lemma ComponentsLabel(rows: Grid, t: int)
    ensures Labelling(Components(rows, t), rows, t)
  {
    var m := Components(rows, t);
    forall s, p | Closed(rows, t, s) && p in m && p in s ensures m[p] <= s {
      ClosedHoldsComponent(rows, t, s, p);
    }
    forall p ensures p in m <==> Bright(rows, t, p) {
      assert p == Pixel(p.x, p.y);
    }
    forall p | p in m ensures p in m[p] {
      SelfConnected(rows, t, p);
    }
    forall p, q | p in m && q in m[p] ensures q in m && m[q] == m[p] {
      SameComponent(rows, t, p, q);
    }
    forall p, q | p in m && q in m && Adjacent(p, q) ensures q in m[p] {
      ConnectedStep(rows, t, p, q);
    }
  }

  // ----- The search -----

  predicate InGrid(rows: Grid, p: Pixel) {
    rows != [] && 0 <= p.y < |rows| && 0 <= p.x < |rows[0]|
  }

  /** The `visited` grid holds exactly the pixels of `seen`. */
  ghost predicate Mirrors(visited: array2<bool>, rows: Grid, seen: set<Pixel>)
    reads visited
  {
    && rows != []
    && visited.Length0 == |rows| && visited.Length1 == |rows[0]|
    && (forall p :: p in seen ==> InGrid(rows, p))
    && (forall x, y :: 0 <= y < |rows| && 0 <= x < |rows[0]| ==> (visited[y, x] <==> Pixel(x, y) in seen))
  }

  const DIRECTIONS: seq<(int, int)> := [(1, 0), (-1, 0), (0, 1), (0, -1)]

  /** Marks the unvisited neighbours of `cur` and returns the bright ones, in push order. */
  method MarkNeighbours(rows: Grid, t: int, visited: array2<bool>, cur: Pixel, ghost seen: set<Pixel>)
    returns (pushed: seq<Pixel>, ghost seen': set<Pixel>)
    requires Rectangular(rows) && Mirrors(visited, rows, seen)
    modifies visited
    ensures Mirrors(visited, rows, seen')
    ensures forall p :: p in seen' <==> p in seen || (InGrid(rows, p) && Adjacent(cur, p))
    ensures forall p :: p in pushed <==> p in seen' - seen && Bright(rows, t, p)
    ensures forall i, j :: 0 <= i < j < |pushed| ==> pushed[i] != pushed[j]
  {
    pushed := [];
    seen' := seen;
    for d := 0 to 4
      invariant Mirrors(visited, rows, seen')
      invariant seen <= seen'
      invariant forall p :: p in seen' ==> p in seen || (InGrid(rows, p) && Adjacent(cur, p))
      invariant forall e :: 0 <= e < d ==>
                  var p := Pixel(cur.x + DIRECTIONS[e].0, cur.y + DIRECTIONS[e].1);
                  InGrid(rows, p) ==> p in seen'
      invariant forall p :: p in pushed <==> p in seen' - seen && Bright(rows, t, p)
      invariant forall i, j :: 0 <= i < j < |pushed| ==> pushed[i] != pushed[j]
    {
      var nx := cur.x + DIRECTIONS[d].0;
      var ny := cur.y + DIRECTIONS[d].1;
      if 0 <= nx < visited.Length1 && 0 <= ny < visited.Length0 && !visited[ny, nx] {
        visited[ny, nx] := true;
        seen' := seen' + {Pixel(nx, ny)};
        if rows[ny][nx] >= t {
          assert Pixel(nx, ny) !in pushed;
          pushed := pushed + [Pixel(nx, ny)];
        }
      }
    }
    forall p | InGrid(rows, p) && Adjacent(cur, p) ensures p in seen' {
      var e := if p.x == cur.x + 1 then 0 else if p.x == cur.x - 1 then 1 else if p.y == cur.y + 1 then 2 else 3;
      assert p == Pixel(cur.x + DIRECTIONS[e].0, cur.y + DIRECTIONS[e].1);
    }
  }

  /** Where a flood stands: popped and stacked pixels are distinct, new, in the seed's component,
      and every neighbour of a popped pixel has been seen. */
  ghost predicate Flooding(m: Labels, rows: Grid, seed: Pixel, before: set<Pixel>, seen: set<Pixel>,
                           popped: set<Pixel>, stack: seq<Pixel>)
    requires seed in m
  {
    && before <= seen
    && (forall p :: p in popped || p in stack ==> p in seen && p !in before && p in m[seed])
    && (forall p :: p in m && p in seen ==> p in before || p in popped || p in stack)
    && (forall p, q :: p in popped && InGrid(rows, q) && Adjacent(p, q) ==> q in seen)
    && (forall i, j :: 0 <= i < j < |stack| ==> stack[i] != stack[j])
    && (forall p :: p in stack ==> p !in popped)
    && (seed in popped || seed in stack)
  }

  /** Popping `cur` and pushing its newly marked bright neighbours keeps the flood in shape. */
  lemma FloodStep(m: Labels, rows: Grid, seed: Pixel, before: set<Pixel>, seen: set<Pixel>, seen': set<Pixel>,
                  popped: set<Pixel>, all: seq<Pixel>, cur: Pixel, pushed: seq<Pixel>)
    requires seed in m && Partition(m) && Flooding(m, rows, seed, before, seen, popped, all)
    requires |all| > 0 && cur == all[|all| - 1]
    requires forall p :: p in seen' <==> p in seen || (InGrid(rows, p) && Adjacent(cur, p))
    requires forall p :: p in pushed <==> p in seen' - seen && p in m
    requires forall i, j :: 0 <= i < j < |pushed| ==> pushed[i] != pushed[j]
    ensures Flooding(m, rows, seed, before, seen', popped + {cur}, all[..|all| - 1] + pushed)
  {
    var stack := all[..|all| - 1];
    assert all == stack + [cur] && cur in all;
    forall i | 0 <= i < |stack| ensures stack[i] != cur {
      assert all[i] != all[|stack|];
    }
    forall p | p in popped + {cur} || p in stack + pushed
      ensures p in seen' && p !in before && p in m[seed]
    {
      if p in pushed {
        assert p in m[cur];
      } else {
        assert p in popped || p in all;
      }
    }
    forall p | p in m && p in seen' ensures p in before || p in popped + {cur} || p in stack + pushed {
      if p in seen { assert p in before || p in popped || p in all; }
    }
    forall i, j | 0 <= i < j < |stack + pushed| ensures (stack + pushed)[i] != (stack + pushed)[j] {
      if j < |stack| {
        assert all[i] != all[j];
      } else if i < |stack| {
        assert stack[i] in all && pushed[j - |stack|] in pushed;
      }
    }
    assert seed in popped || seed in all;
  }

  /** Widens a box just enough to take in one more pixel. */
  function Grow(b: Box, p: Pixel): Box {
    Box(Min(b.minX, p.x), Min(b.minY, p.y), Max(b.endX, p.x + 1), Max(b.endY, p.y + 1))
  }

  lemma TightGrows(s: set<Pixel>, b: Box, cur: Pixel)
    requires if s == {} then b == Box(cur.x, cur.y, cur.x + 1, cur.y + 1) else Tight(s, b)
    ensures Tight(s + {cur}, Grow(b, cur))
  {
    var s' := s + {cur};
    assert cur in s';
    if s != {} {
      var w :| w in s && w.x == b.minX;
      var n :| n in s && n.y == b.minY;
      var e :| e in s && e.x == b.endX - 1;
      var q :| q in s && q.y == b.endY - 1;
      assert w in s' && n in s' && e in s' && q in s';
    }
  }

  /** Pixels seen before a flood are whole components. */
  ghost predicate Saturated(m: Labels, seen: set<Pixel>) {
    forall p, q :: p in m && p in seen && q in m[p] ==> q in seen
  }

  /** The bright pixels seen after a flood: those seen before it, and the seed's component. */
  ghost predicate FloodedTo(m: Labels, seed: Pixel, before: set<Pixel>, seen: set<Pixel>)
    requires seed in m
  {
    before <= seen && forall p :: p in m ==> (p in seen <==> p in before || p in m[seed])
  }

  /** With an empty stack the popped pixels are exactly the seed's component. */
  lemma FloodDone(m: Labels, rows: Grid, t: int, seed: Pixel, before: set<Pixel>, seen: set<Pixel>, popped: set<Pixel>)
    requires Rectangular(rows) && Labelling(m, rows, t) && Saturated(m, before)
    requires seed in m && Flooding(m, rows, seed, before, seen, popped, [])
    ensures popped == m[seed] && FloodedTo(m, seed, before, seen)
  {
    forall a, b | a in popped && Bright(rows, t, b) && Adjacent(a, b) ensures b in popped {
      assert a in m && b in m;
      assert b in m[a] && m[a] == m[seed] == m[b];
      assert b in seen && (b in before ==> seed in before);
    }
    assert Closed(rows, t, popped);
  }

  lemma FloodStart(m: Labels, rows: Grid, t: int, seed: Pixel, before: set<Pixel>)
    requires Rectangular(rows) && Labelling(m, rows, t) && seed in m && seed !in before
    ensures InGrid(rows, seed) && Flooding(m, rows, seed, before, before + {seed}, {}, [seed])
  {
  }

  /** One turn of the flood: pop a pixel, mark its neighbours, push the bright ones. */
  method PopAndMark(rows: Grid, t: int, visited: array2<bool>, seed: Pixel, stack: seq<Pixel>, ghost m: Labels,
                    ghost before: set<Pixel>, ghost seen: set<Pixel>, ghost popped: set<Pixel>)
    returns (stack': seq<Pixel>, ghost seen': set<Pixel>)
    requires Rectangular(rows) && Mirrors(visited, rows, seen) && Labelling(m, rows, t) && seed in m
    requires stack != [] && Flooding(m, rows, seed, before, seen, popped, stack)
    modifies visited
    ensures var cur := stack[|stack| - 1];
            cur !in popped && |popped| < |m[seed]| && Flooding(m, rows, seed, before, seen', popped + {cur}, stack')
    ensures Mirrors(visited, rows, seen')
  {
    var cur := stack[|stack| - 1];
    PopIsFresh(m, rows, seed, before, seen, popped, stack);
    var pushed;
    pushed, seen' := MarkNeighbours(rows, t, visited, cur, seen);
    FloodStep(m, rows, seed, before, seen, seen', popped, stack, cur, pushed);
    stack' := stack[..|stack| - 1] + pushed;
  }

  method MarkSeed(rows: Grid, visited: array2<bool>, seed: Pixel, ghost before: set<Pixel>)
    requires Rectangular(rows) && Mirrors(visited, rows, before) && InGrid(rows, seed)
    modifies visited
    ensures Mirrors(visited, rows, before + {seed})
  {
    visited[seed.y, seed.x] := true;
  }

  /** Floods the component of an unvisited bright seed. */
  method Flood(rows: Grid, t: int, visited: array2<bool>, seed: Pixel, ghost m: Labels, ghost before: set<Pixel>)
    returns (area: nat, box: Box, ghost seen: set<Pixel>)
    requires Rectangular(rows) && Mirrors(visited, rows, before)
    requires Labelling(m, rows, t)
    requires seed in m && seed !in before && Saturated(m, before)
    modifies visited
    ensures Mirrors(visited, rows, seen)
    ensures area == |m[seed]| && Tight(m[seed], box)
    ensures FloodedTo(m, seed, before, seen)
  {
    hide Labelling, Partition, Flooding, Saturated, Tight, FloodedTo, Grow, Mirrors, Rectangular;
    FloodStart(m, rows, t, seed, before);
    var stack := [seed];
    MarkSeed(rows, visited, seed, before);
    seen := before + {seed};
    box := Box(seed.x, seed.y, seed.x + 1, seed.y + 1);
    area := 0;
    ghost var popped: set<Pixel> := {};
    while stack != []
      invariant Mirrors(visited, rows, seen)
      invariant Flooding(m, rows, seed, before, seen, popped, stack)
      invariant area == |popped|
      invariant if popped == {} then box == Box(seed.x, seed.y, seed.x + 1, seed.y + 1) && stack == [seed]
                else Tight(popped, box)
      decreases |m[seed]| - area
    {
      var cur := stack[|stack| - 1];
      area := area + 1;
      TightGrows(popped, box, cur);
      box := Grow(box, cur);
      stack, seen := PopAndMark(rows, t, visited, seed, stack, m, before, seen, popped);
      popped := popped + {cur};
    }
    FloodDone(m, rows, t, seed, before, seen, popped);
  }

  /** The popped pixel is new and bright, and the component bounds how many pops there can be. */
  lemma PopIsFresh(m: Labels, rows: Grid, seed: Pixel, before: set<Pixel>, seen: set<Pixel>,
                   popped: set<Pixel>, stack: seq<Pixel>)
    requires seed in m && Partition(m) && stack != [] && Flooding(m, rows, seed, before, seen, popped, stack)
    ensures var cur := stack[|stack| - 1]; cur in m && cur !in popped
    ensures |popped| < |m[seed]|
  {
    var cur := stack[|stack| - 1];
    assert cur in stack;
    SubsetSize(popped + {cur}, m[seed]);
  }

  /** A component that has a pixel before the cursor. */
  ghost predicate Started(s: set<Pixel>, c: Pixel) {
    exists q :: q in s && Before(q, c)
  }

  /** Once the pixels before the cursor are done, the bright pixels seen are the components
      that start before it. */
  ghost predicate Swept(m: Labels, seen: set<Pixel>, c: Pixel) {
    forall p :: p in m ==> (p in seen <==> Started(m[p], c))
  }

  function Next(p: Pixel): Pixel { Pixel(p.x + 1, p.y) }

  lemma StartedNext(s: set<Pixel>, p: Pixel)
    ensures Started(s, Next(p)) <==> Started(s, p) || p in s
  {
    if p in s { assert Before(p, Next(p)); }
    if Started(s, p) {
      var q :| q in s && Before(q, p);
      assert Before(q, Next(p));
    }
  }

  /** Skipping a dark or visited pixel is right: it starts no component of its own. */
  lemma SkipSweeps(m: Labels, p: Pixel, seen: set<Pixel>)
    requires Partition(m) && Swept(m, seen, p) && (p in seen || p !in m)
    ensures Swept(m, seen, Next(p))
  {
    forall r | r in m ensures r in seen <==> Started(m[r], Next(p)) {
      StartedNext(m[r], p);
    }
  }

  lemma FloodSweeps(m: Labels, p: Pixel, before: set<Pixel>, seen: set<Pixel>)
    requires Partition(m) && p in m && Swept(m, before, p)
    requires FloodedTo(m, p, before, seen)
    ensures Swept(m, seen, Next(p))
  {
    forall r | r in m ensures r in seen <==> Started(m[r], Next(p)) {
      StartedNext(m[r], p);
    }
  }

  /** A pixel whose component already counts through an earlier pixel `q` adds nothing. */
  lemma RepeatKeepsBest(m: Labels, minArea: int, p: Pixel, q: Pixel, best: Option<Box>, bestArea: nat)
    requires p in m ==> q in m && Before(q, p) && |m[q]| == |m[p]|
    requires Best(m, minArea, p, best, bestArea)
    ensures Best(m, minArea, Next(p), best, bestArea)
  {
    if best.Some? {
      var seed :| FirstLargest(m, minArea, p, seed) && Tight(m[seed], best.value) && bestArea == |m[seed]|;
      forall r | r in m && Before(r, Next(p))
        ensures |m[r]| <= |m[seed]| && (Before(r, seed) ==> |m[r]| < |m[seed]|)
      {
        assert r == p || Before(r, p);
      }
      assert FirstLargest(m, minArea, Next(p), seed);
    }
  }

  lemma SkipKeepsBest(m: Labels, minArea: int, p: Pixel, seen: set<Pixel>, best: Option<Box>, bestArea: nat)
    requires Partition(m) && Swept(m, seen, p) && (p in seen || p !in m)
    requires Best(m, minArea, p, best, bestArea)
    ensures Best(m, minArea, Next(p), best, bestArea)
  {
    var q := p;
    if p in m {
      q := PickStart(m[p], p);
      assert m[q] == m[p];
    }
    RepeatKeepsBest(m, minArea, p, q, best, bestArea);
  }

  lemma PickStart(s: set<Pixel>, c: Pixel) returns (q: Pixel)
    requires Started(s, c)
    ensures q in s && Before(q, c)
  {
    q :| q in s && Before(q, c);
  }

  lemma FloodUpdatesBest(m: Labels, minArea: int, p: Pixel, box: Box, best: Option<Box>, bestArea: nat)
    requires p in m && minArea >= 1 && Best(m, minArea, p, best, bestArea) && Tight(m[p], box)
    ensures if |m[p]| >= minArea && |m[p]| > bestArea then Best(m, minArea, Next(p), Some(box), |m[p]|)
            else Best(m, minArea, Next(p), best, bestArea)
  {
    if |m[p]| >= minArea && |m[p]| > bestArea {
      assert FirstLargest(m, minArea, Next(p), p);
    } else if best.Some? {
      var seed :| FirstLargest(m, minArea, p, seed) && Tight(m[seed], best.value) && bestArea == |m[seed]|;
      assert FirstLargest(m, minArea, Next(p), seed);
    }
  }

  /** Every labelled pixel lies in the columns of the grid. */
  ghost predicate Within(m: Labels, width: int) {
    && (forall p :: p in m ==> 0 <= p.x < width)
    && (forall p, q :: p in m && q in m[p] ==> 0 <= q.x < width)
  }

  /** The end of one row is the start of the next. */
  lemma RowEnds(m: Labels, width: int, minArea: int, y: int, seen: set<Pixel>, best: Option<Box>, bestArea: nat)
    requires Within(m, width)
    requires Swept(m, seen, Pixel(width, y)) && Best(m, minArea, Pixel(width, y), best, bestArea)
    ensures Swept(m, seen, Pixel(0, y + 1)) && Best(m, minArea, Pixel(0, y + 1), best, bestArea)
  {
    var a, b := Pixel(width, y), Pixel(0, y + 1);
    forall p | p in m ensures Before(p, a) <==> Before(p, b) {}
    forall p | p in m ensures Started(m[p], a) <==> Started(m[p], b) {
      if Started(m[p], a) { var q :| q in m[p] && Before(q, a); assert Before(q, b); }
      if Started(m[p], b) { var q :| q in m[p] && Before(q, b); assert Before(q, a); }
    }
    if best.Some? {
      var seed :| FirstLargest(m, minArea, a, seed) && Tight(m[seed], best.value) && bestArea == |m[seed]|;
      assert FirstLargest(m, minArea, b, seed);
    }
  }

  /** One turn of the row and column loops: skip, or flood and compare with the best so far. */
  method VisitPixel(rows: Grid, t: int, minArea: int, visited: array2<bool>, p: Pixel,
                    best: Option<Box>, bestArea: nat, ghost m: Labels, ghost seen: set<Pixel>)
    returns (best': Option<Box>, bestArea': nat, ghost seen': set<Pixel>)
    requires Rectangular(rows) && minArea >= 1 && Labelling(m, rows, t)
    requires Mirrors(visited, rows, seen) && InGrid(rows, p)
    requires Swept(m, seen, p) && Best(m, minArea, p, best, bestArea)
    modifies visited
    ensures Mirrors(visited, rows, seen')
    ensures Swept(m, seen', Pixel(p.x + 1, p.y)) && Best(m, minArea, Pixel(p.x + 1, p.y), best', bestArea')
  {
    hide Labelling, Partition, Swept, Best, Tight, Saturated, FloodedTo;
    best', bestArea', seen' := best, bestArea, seen;
    LabellingAt(m, rows, t, p);
    assert Pixel(p.x, p.y) == p;
    if visited[p.y, p.x] || rows[p.y][p.x] < t {
      SkipSweeps(m, p, seen);
      SkipKeepsBest(m, minArea, p, seen, best, bestArea);
    } else {
      SweptSaturated(m, p, seen);
      var area, box;
      area, box, seen' := Flood(rows, t, visited, p, m, seen);
      FloodSweeps(m, p, seen, seen');
      FloodUpdatesBest(m, minArea, p, box, best, bestArea);
      if area >= minArea && area > bestArea {
        best', bestArea' := Some(box), area;
      }
    }
  }

  lemma LabellingAt(m: Labels, rows: Grid, t: int, p: Pixel)
    requires Rectangular(rows) && Labelling(m, rows, t) && InGrid(rows, p)
    ensures Partition(m) && (p in m <==> rows[p.y][p.x] >= t)
  {
  }

  lemma SweptSaturated(m: Labels, c: Pixel, seen: set<Pixel>)
    requires Partition(m) && Swept(m, seen, c)
    ensures Saturated(m, seen)
  {
  }

  /** `_find_largest_bright_region_bbox_from_rows` for a minimum area already computed. */
  method FindLargestBrightRegion(rows: Grid, t: int, minArea: int) returns (bestBox: Option<Box>)
    requires Rectangular(rows) && minArea >= 1
    ensures Answer(rows, t, minArea, bestBox)
  {
    ComponentsLabel(rows, t);
    ghost var bestArea;
    bestBox, bestArea := Search(rows, t, minArea, Components(rows, t));
  }

  lemma SearchStart(m: Labels, rows: Grid, t: int, minArea: int)
    requires Rectangular(rows) && Labelling(m, rows, t)
    ensures Swept(m, {}, Pixel(0, 0)) && Best(m, minArea, Pixel(0, 0), None, 0)
    ensures rows == [] || rows[0] == [] ==> Best(m, minArea, End(rows), None, 0)
    ensures rows != [] ==> Within(m, |rows[0]|)
  {
    forall p | p in m ensures !Started(m[p], Pixel(0, 0)) {
      forall q | q in m[p] ensures !Before(q, Pixel(0, 0)) {
        assert Bright(rows, t, q);
      }
    }
  }

  /** The body of the search, against any labelling of the grid. */
  method Search(rows: Grid, t: int, minArea: int, ghost m: Labels) returns (bestBox: Option<Box>, bestArea: nat)
    requires Rectangular(rows) && minArea >= 1 && Labelling(m, rows, t)
    ensures Best(m, minArea, End(rows), bestBox, bestArea)
  {
    hide Labelling, Partition, Swept, Best, Within;
    bestBox := None;
    bestArea := 0;
    SearchStart(m, rows, t, minArea);
    if rows == [] || rows[0] == [] {
      return;
    }
    var height := |rows|;
    var width := |rows[0]|;
    var visited := new bool[height, width]((i, j) => false);
    ghost var seen: set<Pixel> := {};
    for y := 0 to height
      invariant Mirrors(visited, rows, seen)
      invariant Swept(m, seen, Pixel(0, y)) && Best(m, minArea, Pixel(0, y), bestBox, bestArea)
    {
      for x := 0 to width
        invariant Mirrors(visited, rows, seen)
        invariant Swept(m, seen, Pixel(x, y)) && Best(m, minArea, Pixel(x, y), bestBox, bestArea)
      {
        bestBox, bestArea, seen := VisitPixel(rows, t, minArea, visited, Pixel(x, y), bestBox, bestArea, m, seen);
      }
      RowEnds(m, width, minArea, y, seen, bestBox, bestArea);
    }
  }

  // ----- Scaling the sample box back to the screenshot -----

  /** `_find_largest_bright_region_bbox`: sample coordinates to image coordinates, rounded down. */
  function ScaleBox(b: Box, width: int, height: int, origW: int, origH: int): Box
    requires width > 0 && height > 0
  {
    Box(Max(0, b.minX * origW / width), Max(0, b.minY * origH / height),
        Min(origW, b.endX * origW / width), Min(origH, b.endY * origH / height))
  }

  lemma DivBounds(a: int, d: int)
    requires d > 0
    ensures d * (a / d) <= a < d * (a / d) + d
  {
  }

  lemma LessByProduct(d: int, a: int, b: int)
    requires d > 0 && d * a < d * b
    ensures a < b
  {
    if a >= b { Distribute(b, a - b, d); }
  }

  /** One axis, with l and h the exact ends times width: the interval is non-empty, inside the
      image, and holds an image column x whenever the column's stretch x*width .. (x+1)*width
      lies between l and h. */
  lemma ScaledInterval(l: int, h: int, width: int, orig: int, x: int)
    requires 0 < width <= orig && 0 <= l && l + orig <= h <= width * orig
    ensures 0 <= l / width < h / width <= orig
    ensures l <= x * width && (x + 1) * width <= h ==> l / width <= x < h / width
  {
    var ql, qh := l / width, h / width;
    DivBounds(l, width);
    DivBounds(h, width);
    assert width * (ql + 1) == width * ql + width;
    assert width * (qh + 1) == width * qh + width;
    LessByProduct(width, ql, qh);
    LessByProduct(width, qh, orig + 1);
    LessByProduct(width, -1, ql);
    if l <= x * width && (x + 1) * width <= h {
      assert width * ql < width * (x + 1);
      LessByProduct(width, ql, x + 1);
      LessByProduct(width, x + 1, qh + 1);
    }
  }

  /** A box inside the sample scales to a non-empty box inside an image no smaller than the sample,
      and the box keeps every image pixel that lies wholly inside the exact rectangle. */
  lemma ScaledBoxInside(b: Box, width: int, height: int, origW: int, origH: int, p: Pixel)
    requires 0 <= b.minX < b.endX <= width && 0 <= b.minY < b.endY <= height
    requires 0 < width <= origW && 0 < height <= origH
    ensures var r := ScaleBox(b, width, height, origW, origH);
            && 0 <= r.minX < r.endX <= origW && 0 <= r.minY < r.endY <= origH
            && (b.minX * origW <= p.x * width && (p.x + 1) * width <= b.endX * origW ==> r.minX <= p.x < r.endX)
            && (b.minY * origH <= p.y * height && (p.y + 1) * height <= b.endY * origH ==> r.minY <= p.y < r.endY)
  {
    ProductGap(b.minX, b.endX, width, origW);
    ProductGap(b.minY, b.endY, height, origH);
    ScaledInterval(b.minX * origW, b.endX * origW, width, origW, p.x);
    ScaledInterval(b.minY * origH, b.endY * origH, height, origH, p.y);
  }

  lemma ProductGap(lo: int, hi: int, width: int, orig: int)
    requires 0 <= lo < hi <= width && orig >= 0
    ensures 0 <= lo * orig && lo * orig + orig <= hi * orig <= width * orig
  {
    Distribute(0, lo, orig);
    Distribute(lo, hi - lo, orig);
    Distribute(1, hi - lo - 1, orig);
    Distribute(hi, width - hi, orig);
  }

  lemma Distribute(a: int, b: int, c: int)
    requires b >= 0 && c >= 0
    ensures (a + b) * c == a * c + b * c && b * c >= 0
  {
  }
}
