/** The disjoint-set forest of the Havannah engine, as a value: one parent, rank and
    corner/edge mask per cell. The engine's `find` and `link` methods are specified by
    the functions `Compress` and `LinkForest` on this value. */
module UnionFind {
  import opened Bits

  datatype Forest = Forest(parents: seq<int>, ranks: seq<int>, patterns: seq<int>)

  /** The masks are 12-bit (6 corner bits, 6 edge bits). */
  const MaskLimit: nat := 0x1000

  /** Well-formed forest with the union-by-rank invariant: every non-root cell's parent
      has a strictly larger rank. */
  ghost predicate Valid(f: Forest) {
    && |f.parents| == |f.ranks| == |f.patterns|
    && (forall x :: 0 <= x < |f.parents| ==> 0 <= f.parents[x] < |f.parents|)
    && (forall x :: 0 <= x < |f.ranks| ==> 0 <= f.ranks[x])
    && (forall x :: 0 <= x < |f.patterns| ==> 0 <= f.patterns[x] < MaskLimit)
    && (forall x :: 0 <= x < |f.parents| && f.parents[x] != x ==> f.ranks[x] < f.ranks[f.parents[x]])
  }

  /** An upper bound of all ranks; `MaxRank - rank` is the termination measure of find. */
  function MaxRank(rk: seq<int>): (m: int)
    ensures forall i :: 0 <= i < |rk| ==> rk[i] <= m
  {
    if rk == [] then 0
    else
      var rest := MaxRank(rk[1..]);
      assert forall i :: 1 <= i < |rk| ==> rk[i] == rk[1..][i - 1];
      if rk[0] > rest then rk[0] else rest
  }

  /** The representative of `x`'s group. */
  ghost function Root(f: Forest, x: int): (r: int)
    requires Valid(f) && 0 <= x < |f.parents|
    ensures 0 <= r < |f.parents| && f.parents[r] == r
    ensures f.ranks[x] <= f.ranks[r]
    ensures f.parents[x] != x ==> f.ranks[x] < f.ranks[r]
    decreases MaxRank(f.ranks) - f.ranks[x]
  {
    if f.parents[x] == x then x else Root(f, f.parents[x])
  }

  /** `y` lies on the parent path from `x` to its root (both ends included). */
  ghost predicate OnPath(f: Forest, x: int, y: int)
    requires Valid(f) && 0 <= x < |f.parents|
    decreases MaxRank(f.ranks) - f.ranks[x]
  {
    y == x || (f.parents[x] != x && OnPath(f, f.parents[x], y))
  }

  /** The forest after `find(x)`: find the parent's root, compressing its path, then point
      x straight at that root. */
  ghost function Compress(f: Forest, x: int): (g: Forest)
    requires Valid(f) && 0 <= x < |f.parents|
    ensures |g.parents| == |f.parents| && g.ranks == f.ranks && g.patterns == f.patterns
    decreases MaxRank(f.ranks) - f.ranks[x]
  {
    if f.parents[x] == x then f
    else
      var h := Compress(f, f.parents[x]);
      h.(parents := h.parents[x := Root(f, x)])
  }

  // ---------------------------------------------------------------- roots and paths

  lemma {:induction false} OnPathRoot(f: Forest, x: int, y: int)
    requires Valid(f) && 0 <= x < |f.parents| && OnPath(f, x, y)
    ensures 0 <= y < |f.parents| && Root(f, y) == Root(f, x)
    decreases MaxRank(f.ranks) - f.ranks[x]
  {
    if y != x {
      OnPathRoot(f, f.parents[x], y);
    }
  }

  lemma {:induction false} RootOnPath(f: Forest, x: int)
    requires Valid(f) && 0 <= x < |f.parents|
    ensures OnPath(f, x, Root(f, x))
    decreases MaxRank(f.ranks) - f.ranks[x]
  {
    if f.parents[x] != x {
      RootOnPath(f, f.parents[x]);
    }
  }

  /** A cell is its own root exactly when it is its own parent. */
  lemma RootFixed(f: Forest, x: int)
    requires Valid(f) && 0 <= x < |f.parents|
    ensures Root(f, x) == x <==> f.parents[x] == x
  {
  }

  // ---------------------------------------------------------------- path compression

  /** Path compression keeps the union-by-rank invariant and changes no rank or mask. */
  lemma CompressValid(f: Forest, x: int)
    requires Valid(f) && 0 <= x < |f.parents|
    ensures Valid(Compress(f, x))
    ensures Compress(f, x).ranks == f.ranks && Compress(f, x).patterns == f.patterns
  {
    CompressFlattens(f, x);
    var g := Compress(f, x);
    forall y | 0 <= y < |g.parents| && g.parents[y] != y
      ensures g.ranks[y] < g.ranks[g.parents[y]]
    {
      if OnPath(f, x, y) {
        OnPathRoot(f, x, y);
      }
    }
  }

  /** Path compression changes no cell's root. */
  lemma {:induction false} CompressRoots(f: Forest, x: int, y: int)
    requires Valid(f) && 0 <= x < |f.parents| && 0 <= y < |f.parents|
    ensures Valid(Compress(f, x)) && Root(Compress(f, x), y) == Root(f, y)
    decreases MaxRank(f.ranks) - f.ranks[y]
  {
    CompressValid(f, x);
    CompressParents(f, x, y);
    var g := Compress(f, x);
    if OnPath(f, x, y) {
      OnPathRoot(f, x, y);
      if g.parents[y] != y {
        CompressRoots(f, x, g.parents[y]);
      }
    } else if g.parents[y] != y {
      CompressRoots(f, x, f.parents[y]);
    }
  }

  /** After `find(x)` every cell of x's old path, x included, points directly at the root,
      and every other cell keeps its parent. */
  lemma {:induction false} CompressParents(f: Forest, x: int, y: int)
    requires Valid(f) && 0 <= x < |f.parents| && 0 <= y < |f.parents|
    ensures Compress(f, x).parents[y] == if OnPath(f, x, y) then Root(f, x) else f.parents[y]
    decreases MaxRank(f.ranks) - f.ranks[x]
  {
    if f.parents[x] != x && y != x {
      CompressParents(f, f.parents[x], y);
    }
  }

  lemma CompressFlattens(f: Forest, x: int)
    requires Valid(f) && 0 <= x < |f.parents|
    ensures forall y :: 0 <= y < |f.parents| && OnPath(f, x, y) ==> Compress(f, x).parents[y] == Root(f, x)
    ensures forall y :: 0 <= y < |f.parents| && !OnPath(f, x, y) ==> Compress(f, x).parents[y] == f.parents[y]
    ensures Compress(f, x).parents[x] == Root(f, x)
  {
    forall y | 0 <= y < |f.parents|
      ensures Compress(f, x).parents[y] == if OnPath(f, x, y) then Root(f, x) else f.parents[y]
    {
      CompressParents(f, x, y);
    }
  }

  /** `find` on a root changes nothing. */
  lemma CompressAtRoot(f: Forest, x: int)
    requires Valid(f) && 0 <= x < |f.parents| && f.parents[x] == x
    ensures Compress(f, x) == f
  {
    var g := Compress(f, x);
    forall y | 0 <= y < |f.parents|
      ensures g.parents[y] == f.parents[y]
    {
      assert OnPath(f, x, y) <==> y == x;
    }
  }

  /** `find` is idempotent: a second `find(x)` changes nothing and gives the same root. */
  lemma CompressIdempotent(f: Forest, x: int)
    requires Valid(f) && 0 <= x < |f.parents|
    ensures Valid(Compress(f, x))
    ensures Root(Compress(f, x), x) == Root(f, x)
    ensures Compress(Compress(f, x), x) == Compress(f, x)
  {
    CompressValid(f, x);
    var g := Compress(f, x);
    CompressRoots(f, x, x);
    var r := Root(f, x);
    forall y | 0 <= y < |g.parents|
      ensures OnPath(g, x, y) <==> y == x || y == r
    {
      if x != r {
        assert g.parents[x] == r;
        assert OnPath(g, x, y) == (y == x || OnPath(g, r, y));
        assert OnPath(g, r, y) <==> y == r;
      }
    }
    var gg := Compress(g, x);
    CompressFlattens(g, x);
    CompressFlattens(f, x);
    forall y | 0 <= y < |g.parents|
      ensures gg.parents[y] == g.parents[y]
    {
    }
  }

  // ---------------------------------------------------------------- linking

  /** The root that survives `link(x, y)`: the higher-ranked one, x's on a tie. */
  ghost function Survivor(f: Forest, x: int, y: int): int
    requires Valid(f) && 0 <= x < |f.parents| && 0 <= y < |f.parents|
  {
    var px := Root(f, x);
    var py := Root(f, y);
    if f.ranks[px] < f.ranks[py] then py else px
  }

  /** The root that `link(x, y)` hangs below the survivor. */
  ghost function Absorbed(f: Forest, x: int, y: int): int
    requires Valid(f) && 0 <= x < |f.parents| && 0 <= y < |f.parents|
  {
    var px := Root(f, x);
    var py := Root(f, y);
    if f.ranks[px] < f.ranks[py] then px else py
  }

  /** The mask the survivor holds after `link(x, y)`: the OR of both roots' masks. */
  ghost function MergedMask(f: Forest, x: int, y: int): nat
    requires Valid(f) && 0 <= x < |f.parents| && 0 <= y < |f.parents|
  {
    Or(f.patterns[Survivor(f, x, y)], f.patterns[Absorbed(f, x, y)])
  }

  /** The union step of `link` once both roots are known: the lower-ranked root is hung
      below the other (`px` stays on top on a tie, and its rank grows, even when both are
      the same cell), and the root on top takes the other's mask bits. */
  ghost function Unite(g: Forest, px: int, py: int): (r: Forest)
    requires |g.parents| == |g.ranks| == |g.patterns|
    requires 0 <= px < |g.parents| && 0 <= py < |g.parents|
    requires g.patterns[px] >= 0 && g.patterns[py] >= 0
    ensures |r.parents| == |r.ranks| == |r.patterns| == |g.parents|
    // one of the two roots now points at the other, and no other cell moves
    ensures r.parents[px] == py || r.parents[py] == px
    // px's rank grows by at most one
    ensures g.ranks[px] <= r.ranks[px] <= g.ranks[px] + 1
  {
    if g.ranks[px] < g.ranks[py] then
      Forest(g.parents[px := py], g.ranks, g.patterns[py := Or(g.patterns[py], g.patterns[px])])
    else
      Forest(g.parents[py := px],
             if g.ranks[px] == g.ranks[py] then g.ranks[px := g.ranks[px] + 1] else g.ranks,
             g.patterns[px := Or(g.patterns[px], g.patterns[py])])
  }

  /** The forest after `link(x, y)`: find both roots (compressing both paths), then unite
      them. */
  ghost function LinkForest(f: Forest, x: int, y: int): (r: Forest)
    requires Valid(f) && 0 <= x < |f.parents| && 0 <= y < |f.parents|
    ensures |r.parents| == |r.ranks| == |r.patterns| == |f.parents|
  {
    CompressValid(f, x);
    Unite(Compress(Compress(f, x), y), Root(f, x), Root(f, y))
  }

  /** The parent vector of `LinkForest`: the absorbed root now points at the survivor. */
  lemma LinkForestParts(f: Forest, x: int, y: int)
    requires Valid(f) && 0 <= x < |f.parents| && 0 <= y < |f.parents|
    ensures Valid(Compress(f, x)) && Valid(Compress(Compress(f, x), y))
    ensures var l := LinkForest(f, x, y);
      var s, a := Survivor(f, x, y), Absorbed(f, x, y);
      l.parents == Compress(Compress(f, x), y).parents[a := s]
  {
    CompressValid(f, x);
    var g1 := Compress(f, x);
    CompressValid(g1, y);
    var g := Compress(g1, y);
    var px, py := Root(f, x), Root(f, y);
    assert LinkForest(f, x, y) == Unite(g, px, py);
    UniteParts(g, px, py);
  }

  /** `Unite` changes one parent, at most one rank and one mask. */
  lemma UniteParts(g: Forest, px: int, py: int)
    requires |g.parents| == |g.ranks| == |g.patterns|
    requires 0 <= px < |g.parents| && 0 <= py < |g.parents|
    requires g.patterns[px] >= 0 && g.patterns[py] >= 0
    ensures var u := Unite(g, px, py);
      var s, a := (if g.ranks[px] < g.ranks[py] then py else px), (if g.ranks[px] < g.ranks[py] then px else py);
      && u.parents == g.parents[a := s]
      && u.ranks == (if g.ranks[px] == g.ranks[py] then g.ranks[px := g.ranks[px] + 1] else g.ranks)
      && u.patterns == g.patterns[s := Or(g.patterns[s], g.patterns[a])]
  {
  }

  /** Redirecting root `a` to root `s` maps every root `a` to `s` and leaves the others. */
  lemma {:induction false} RetargetRoots(g: Forest, h: Forest, s: int, a: int, z: int)
    requires Valid(g) && Valid(h) && |h.parents| == |g.parents|
    requires 0 <= s < |g.parents| && 0 <= a < |g.parents|
    requires g.parents[s] == s && g.parents[a] == a
    requires h.parents == g.parents[a := s]
    requires 0 <= z < |g.parents|
    ensures Root(h, z) == if Root(g, z) == a then s else Root(g, z)
    decreases MaxRank(g.ranks) - g.ranks[z]
  {
    if g.parents[z] != z {
      RetargetRoots(g, h, s, a, g.parents[z]);
    }
  }

  lemma LinkRootsOfF2(f: Forest, x: int, y: int)
    requires Valid(f) && 0 <= x < |f.parents| && 0 <= y < |f.parents|
    ensures Valid(Compress(f, x))
    ensures Valid(Compress(Compress(f, x), y)) &&
      var f2 := Compress(Compress(f, x), y);
      f2.ranks == f.ranks && f2.patterns == f.patterns &&
      forall z :: 0 <= z < |f.parents| ==> Root(f2, z) == Root(f, z)
  {
    CompressValid(f, x);
    CompressValid(Compress(f, x), y);
    forall z | 0 <= z < |f.parents|
      ensures Root(Compress(Compress(f, x), y), z) == Root(f, z)
    {
      CompressRoots(f, x, z);
      CompressRoots(Compress(f, x), y, z);
    }
  }

  /** Uniting two roots keeps the union-by-rank invariant and the 12-bit masks. */
  lemma UniteValid(g: Forest, px: int, py: int)
    requires Valid(g) && 0 <= px < |g.parents| && 0 <= py < |g.parents|
    requires g.parents[px] == px && g.parents[py] == py
    ensures Valid(Unite(g, px, py)) && |Unite(g, px, py).parents| == |g.parents|
  {
    var l := Unite(g, px, py);
    OrBound(g.patterns[px], g.patterns[py], 12);
    OrBound(g.patterns[py], g.patterns[px], 12);
    assert Pow2(12) == MaskLimit by {
      assert Pow2(4) == 16;
      assert Pow2(8) == 256;
    }
    forall z | 0 <= z < |l.parents| && l.parents[z] != z
      ensures l.ranks[z] < l.ranks[l.parents[z]]
    {
      if z != px && z != py {
        assert l.parents[z] == g.parents[z];
      }
    }
  }

  /** `link` keeps the union-by-rank invariant and the 12-bit masks. */
  lemma LinkValid(f: Forest, x: int, y: int)
    requires Valid(f) && 0 <= x < |f.parents| && 0 <= y < |f.parents|
    ensures Valid(LinkForest(f, x, y)) && |LinkForest(f, x, y).parents| == |f.parents|
  {
    LinkRootsOfF2(f, x, y);
    var f2 := Compress(Compress(f, x), y);
    RootFixed(f2, Root(f, x));
    RootFixed(f2, Root(f, y));
    UniteValid(f2, Root(f, x), Root(f, y));
  }

  /** After `link(x, y)` the absorbed root's whole group has the survivor as root and every
      other cell keeps its root. */
  lemma LinkRoots(f: Forest, x: int, y: int, z: int)
    requires Valid(f) && 0 <= x < |f.parents| && 0 <= y < |f.parents| && 0 <= z < |f.parents|
    ensures Valid(LinkForest(f, x, y))
    ensures Root(LinkForest(f, x, y), z) ==
      if Root(f, z) == Absorbed(f, x, y) then Survivor(f, x, y) else Root(f, z)
  {
    LinkValid(f, x, y);
    LinkRootsOfF2(f, x, y);
    var f2 := Compress(Compress(f, x), y);
    RootFixed(f2, Root(f, x));
    RootFixed(f2, Root(f, y));
    RetargetRoots(f2, LinkForest(f, x, y), Survivor(f, x, y), Absorbed(f, x, y), z);
  }

  /** After `link(x, y)`, `find(x) == find(y)`, and it is the survivor. */
  lemma LinkJoins(f: Forest, x: int, y: int)
    requires Valid(f) && 0 <= x < |f.parents| && 0 <= y < |f.parents|
    ensures Valid(LinkForest(f, x, y))
    ensures Root(LinkForest(f, x, y), x) == Root(LinkForest(f, x, y), y) == Survivor(f, x, y)
  {
    LinkRoots(f, x, y, x);
    LinkRoots(f, x, y, y);
  }

  /** Two cells share a root after `link(x, y)` exactly when they shared one before, or
      both belonged to x's or y's group. */
  lemma LinkGroups(f: Forest, x: int, y: int, z: int, w: int)
    requires Valid(f) && 0 <= x < |f.parents| && 0 <= y < |f.parents|
    requires 0 <= z < |f.parents| && 0 <= w < |f.parents|
    ensures Valid(LinkForest(f, x, y))
    ensures Root(LinkForest(f, x, y), z) == Root(LinkForest(f, x, y), w) <==>
      Root(f, z) == Root(f, w) ||
      (Root(f, z) in {Root(f, x), Root(f, y)} && Root(f, w) in {Root(f, x), Root(f, y)})
  {
    LinkRoots(f, x, y, z);
    LinkRoots(f, x, y, w);
  }

  /** Union by rank: the higher-ranked root survives with its rank; on a tie x's root
      survives and its rank rises by exactly one, also when x and y already shared a root.
      No other rank changes. */
  lemma LinkRanks(f: Forest, x: int, y: int)
    requires Valid(f) && 0 <= x < |f.parents| && 0 <= y < |f.parents|
    ensures var px, py := Root(f, x), Root(f, y);
      var l := LinkForest(f, x, y);
      && (f.ranks[px] < f.ranks[py] ==> Survivor(f, x, y) == py && l.ranks == f.ranks)
      && (f.ranks[px] > f.ranks[py] ==> Survivor(f, x, y) == px && l.ranks == f.ranks)
      && (f.ranks[px] == f.ranks[py] ==>
            && Survivor(f, x, y) == px
            && l.ranks[px] == f.ranks[px] + 1
            && forall z :: 0 <= z < |f.ranks| && z != px ==> l.ranks[z] == f.ranks[z])
  {
  }

  /** `link` stores the OR of the two root masks in the survivor; no other mask changes. */
  lemma LinkMasks(f: Forest, x: int, y: int)
    requires Valid(f) && 0 <= x < |f.parents| && 0 <= y < |f.parents|
    ensures var l := LinkForest(f, x, y);
      var s := Survivor(f, x, y);
      && l.patterns[s] == Or(f.patterns[Root(f, x)], f.patterns[Root(f, y)])
      && forall z :: 0 <= z < |f.patterns| && z != s ==> l.patterns[z] == f.patterns[z]
  {
    var px, py := Root(f, x), Root(f, y);
    OrComm(f.patterns[px], f.patterns[py]);
  }

  /** The forest after `link(x, y)` for each y of `ys` in turn. */
  ghost function LinkAll(f: Forest, x: int, ys: seq<int>): (g: Forest)
    requires Valid(f) && 0 <= x < |f.parents| && forall k :: 0 <= k < |ys| ==> 0 <= ys[k] < |f.parents|
    ensures Valid(g) && |g.parents| == |f.parents|
    decreases |ys|
  {
    if ys == [] then f
    else
      var g := LinkAll(f, x, ys[..|ys| - 1]);
      LinkValid(g, x, ys[|ys| - 1]);
      LinkForest(g, x, ys[|ys| - 1])
  }

  /** One more `link(x, y)` after a run of them. */
  lemma LinkAllSnoc(f: Forest, x: int, ys: seq<int>, y: int)
    requires Valid(f) && 0 <= x < |f.parents| && forall k :: 0 <= k < |ys| ==> 0 <= ys[k] < |f.parents|
    requires 0 <= y < |f.parents|
    ensures LinkAll(f, x, ys + [y]) == LinkForest(LinkAll(f, x, ys), x, y)
  {
    assert (ys + [y])[..|ys|] == ys;
  }

  /** `z` is in x's group or in the group of one of `ys`. */
  ghost predicate InGroupOf(f: Forest, x: int, ys: seq<int>, z: int)
    requires Valid(f) && 0 <= x < |f.parents| && 0 <= z < |f.parents|
    requires forall k :: 0 <= k < |ys| ==> 0 <= ys[k] < |f.parents|
  {
    Root(f, z) == Root(f, x) || exists k :: 0 <= k < |ys| && Root(f, z) == Root(f, ys[k])
  }

  /** Membership in the union of groups, one more cell at a time. */
  lemma InGroupOfSnoc(f: Forest, x: int, ys: seq<int>, w: int)
    requires Valid(f) && 0 <= x < |f.parents| && forall k :: 0 <= k < |ys| ==> 0 <= ys[k] < |f.parents|
    requires ys != [] && 0 <= w < |f.parents|
    ensures InGroupOf(f, x, ys, w) <==> InGroupOf(f, x, ys[..|ys| - 1], w) || Root(f, w) == Root(f, ys[|ys| - 1])
  {
    var ys' := ys[..|ys| - 1];
    if InGroupOf(f, x, ys, w) && Root(f, w) != Root(f, x) {
      var k :| 0 <= k < |ys| && Root(f, w) == Root(f, ys[k]);
      if k < |ys'| {
        assert ys'[k] == ys[k];
      }
    }
    if InGroupOf(f, x, ys', w) && Root(f, w) != Root(f, x) {
      var k :| 0 <= k < |ys'| && Root(f, w) == Root(f, ys'[k]);
      assert ys[k] == ys'[k];
    }
  }

  /** After linking x with each of `ys`, two cells share a root exactly when they did
      before, or both lie in the union of the groups of x and of `ys`. */
  lemma {:induction false} LinkAllGroups(f: Forest, x: int, ys: seq<int>, u: int, v: int)
    requires Valid(f) && 0 <= x < |f.parents| && forall k :: 0 <= k < |ys| ==> 0 <= ys[k] < |f.parents|
    requires 0 <= u < |f.parents| && 0 <= v < |f.parents|
    ensures Root(LinkAll(f, x, ys), u) == Root(LinkAll(f, x, ys), v) <==>
      Root(f, u) == Root(f, v) || (InGroupOf(f, x, ys, u) && InGroupOf(f, x, ys, v))
    decreases |ys|
  {
    if ys != [] {
      var m := |ys| - 1;
      var ys' := ys[..m];
      var y := ys[m];
      var g := LinkAll(f, x, ys');
      assert LinkAll(f, x, ys) == LinkForest(g, x, y);
      InGroupOfSnoc(f, x, ys, u);
      InGroupOfSnoc(f, x, ys, v);
      LinkGroups(g, x, y, u, v);
      // u's and v's membership in the merged group, read off the forest before the last link
      LinkAllGroups(f, x, ys', u, x);
      LinkAllGroups(f, x, ys', u, y);
      LinkAllGroups(f, x, ys', v, x);
      LinkAllGroups(f, x, ys', v, y);
      assert InGroupOf(f, x, ys', x);
      LinkAllGroups(f, x, ys', u, v);
    }
  }

  /** The survivor of `link(x, y)` is x's new root and holds the merged mask; a winning
      mask at x's old root stays winning. */
  lemma LinkMaskGrows(f: Forest, x: int, y: int)
    requires Valid(f) && 0 <= x < |f.parents| && 0 <= y < |f.parents|
    ensures Valid(LinkForest(f, x, y))
    ensures LinkForest(f, x, y).patterns[Root(LinkForest(f, x, y), x)] == MergedMask(f, x, y)
    ensures IsWinningMask(f.patterns[Root(f, x)]) ==> IsWinningMask(MergedMask(f, x, y))
  {
    LinkJoins(f, x, y);
    var s, a := Survivor(f, x, y), Absorbed(f, x, y);
    assert Pow2(12) == MaskLimit by {
      assert Pow2(4) == 16;
      assert Pow2(8) == 256;
    }
    if IsWinningMask(f.patterns[Root(f, x)]) {
      if Root(f, x) == s {
        WinningMaskMono(f.patterns[s], f.patterns[a]);
      } else {
        WinningMaskMono(f.patterns[a], f.patterns[s]);
        OrComm(f.patterns[a], f.patterns[s]);
      }
    }
  }

  // ---------------------------------------------------------------- the fork/bridge test

  /** Number of the set bits among bits 0 .. 5 of `m`, written out. */
  function LowSix(m: nat): nat
  {
    var q1 := m / 2;
    var q2 := q1 / 2;
    var q3 := q2 / 2;
    var q4 := q3 / 2;
    m % 2 + q1 % 2 + q2 % 2 + q3 % 2 + q4 % 2 + q4 / 2 % 2
  }

  /** The group touches at least two of the six corners (a fork: bits 0 .. 5 of the mask)
      or at least three of the six edges (a bridge: bits 6 .. 11). */
  predicate IsWinningMask(m: nat) {
    LowSix(m) >= 2 || LowSix(m / 64) >= 3
  }

  /** `LowSix` counts exactly the set bits among bits 0 .. 5. */
  lemma LowSixCounts(m: nat)
    ensures LowSix(m) == CountBits(m, 0, 6)
  {
    var q1 := m / 2;
    var q2 := q1 / 2;
    var q3 := q2 / 2;
    var q4 := q3 / 2;
    var q5 := q4 / 2;
    CountBitsLowest(m, 5);
    CountBitsLowest(q1, 4);
    CountBitsLowest(q2, 3);
    CountBitsLowest(q3, 2);
    CountBitsLowest(q4, 1);
    CountBitsLowest(q5, 0);
  }

  /** The counts of `link`, `popcount(mask & 0x3f)` and `popcount(mask >> 6)`, count
      exactly the set bits among bits 0 .. 5 and 6 .. 11 of a 12-bit mask. */
  lemma MaskCounts(m: nat)
    requires m < MaskLimit
    ensures BitCount(And(m, 0x3f)) == CountBits(m, 0, 6) == LowSix(m)
    ensures BitCount(m / 64) == CountBits(m, 6, 12) == LowSix(m / 64)
  {
    assert Pow2(6) == 64 by {
      assert Pow2(3) == 8;
    }
    LowMaskCount(m, 6);
    assert m / 64 < Pow2(6);
    BitCountBelow(m / 64, 6);
    var q1 := m / 2;
    var q2 := q1 / 2;
    var q3 := q2 / 2;
    var q4 := q3 / 2;
    var q5 := q4 / 2;
    assert q5 / 2 == m / 64;
    CountBitsShift(q5, 0, 6);
    CountBitsShift(q4, 1, 7);
    CountBitsShift(q3, 2, 8);
    CountBitsShift(q2, 3, 9);
    CountBitsShift(q1, 4, 10);
    CountBitsShift(m, 5, 11);
    LowSixCounts(m);
    LowSixCounts(m / 64);
  }

  /** Merging more cells into a winning group keeps it winning. */
  lemma WinningMaskMono(a: nat, b: nat)
    requires a < MaskLimit && b < MaskLimit && IsWinningMask(a)
    ensures IsWinningMask(Or(a, b))
  {
    assert Pow2(12) == MaskLimit by {
      assert Pow2(4) == 16;
      assert Pow2(8) == 256;
    }
    OrBound(a, b, 12);
    MaskCounts(a);
    MaskCounts(Or(a, b));
    CountBitsOrMono(a, b, 0, 6);
    CountBitsOrMono(a, b, 6, 12);
  }
}
