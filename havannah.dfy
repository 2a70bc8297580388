/** The Havannah environment: the board, the legal-move mask, the empty-cell counter, the
    move history, and the disjoint-set forest that detects forks, bridges and rings
    after every move. */
module Havannah {
  import opened Players
  import opened Bits
  import opened Geometry
  import opened Ring
  import UnionFind

  /** A move: the cell index and the player who places the stone. */
  datatype Action = Action(id: int, player: Player)

  /** The cells of the recorded moves, in order. */
  function Ids(acts: seq<Action>): (r: seq<int>)
    ensures |r| == |acts| && forall i :: 0 <= i < |acts| ==> r[i] == acts[i].id
  {
    seq(|acts|, i requires 0 <= i < |acts| => acts[i].id)
  }

  /** The one cell that stays legal although occupied: under the swap rule, after the first
      move, its cell may be chosen again by the second player. */
  predicate InSwapWindow(swapRule: bool, acts: seq<Action>, c: int) {
    swapRule && |acts| == 1 && acts[0].id == c
  }

  /** Number of playable empty cells among cells 0 .. k - 1. */
  function EmptyUpTo(n: int, b: seq<Player>, k: int): (r: nat)
    requires n > 0 && 0 <= k <= |b|
    ensures r <= k
  {
    if k == 0 then 0
    else EmptyUpTo(n, b, k - 1) + (if IsOnBoardCell(n, k - 1) && b[k - 1] == None then 1 else 0)
  }

  /** Number of playable empty cells. */
  function EmptyCount(n: int, b: seq<Player>): nat
    requires n > 0
  {
    EmptyUpTo(n, b, |b|)
  }

  /** The cells of `ns` on which player `p` has a stone, in order. */
  function Friendly(ns: seq<int>, b: seq<Player>, p: Player): (r: seq<int>)
    requires InRange(ns, |b|)
    ensures InRange(r, |b|) && |r| <= |ns|
    ensures forall v :: v in r <==> v in ns && b[v] == p
  {
    if ns == [] then []
    else
      var last := ns[|ns| - 1];
      var rest := Friendly(ns[..|ns| - 1], b, p);
      assert ns == ns[..|ns| - 1] + [last];
      assert forall t :: 0 <= t < |rest| ==> rest[t] in rest;
      rest + (if b[last] == p then [last] else [])
  }

  /** The mover's stones among the first `i` neighbours: the ones linked so far. */
  function FriendlyPrefix(ns: seq<int>, b: seq<Player>, p: Player, i: int): (r: seq<int>)
    requires InRange(ns, |b|) && 0 <= i <= |ns|
    ensures forall k :: 0 <= k < |r| ==> 0 <= r[k] < |b|
  {
    Friendly(ns[..i], b, p)
  }

  lemma FriendlySnoc(ns: seq<int>, b: seq<Player>, p: Player, i: int)
    requires InRange(ns, |b|) && 0 <= i < |ns|
    ensures b[ns[i]] == p ==> FriendlyPrefix(ns, b, p, i + 1) == FriendlyPrefix(ns, b, p, i) + [ns[i]]
    ensures b[ns[i]] != p ==> FriendlyPrefix(ns, b, p, i + 1) == FriendlyPrefix(ns, b, p, i)
  {
    assert ns[..i + 1][..i] == ns[..i];
  }

  /** Some cell among ns[0 .. i - 1] holds a stone of `p`. */
  predicate AnyOwned(ns: seq<int>, b: seq<Player>, p: Player, i: int)
    requires InRange(ns, |b|) && 0 <= i <= |ns|
  {
    i > 0 && (b[ns[i - 1]] == p || AnyOwned(ns, b, p, i - 1))
  }

  lemma {:induction false} AnyOwnedIff(ns: seq<int>, b: seq<Player>, p: Player, i: int)
    requires InRange(ns, |b|) && 0 <= i <= |ns|
    ensures AnyOwned(ns, b, p, i) <==> exists k :: 0 <= k < i && b[ns[k]] == p
  {
    if i > 0 {
      AnyOwnedIff(ns, b, p, i - 1);
    }
  }

  /** The forest once the linking loop of `updateWinner` has visited ns[0 .. i - 1]:
      `link(x, y)` for each of them that holds a stone of `p`, in order. */
  ghost function LinkedUpTo(f: UnionFind.Forest, x: int, ns: seq<int>, b: seq<Player>, p: Player, i: int)
    : (g: UnionFind.Forest)
    requires UnionFind.Valid(f) && 0 <= x < |f.parents| && |b| == |f.parents|
    requires InRange(ns, |b|) && 0 <= i <= |ns|
    ensures UnionFind.Valid(g) && |g.parents| == |f.parents|
    decreases i
  {
    if i == 0 then f
    else
      var g := LinkedUpTo(f, x, ns, b, p, i - 1);
      if b[ns[i - 1]] == p then
        UnionFind.LinkValid(g, x, ns[i - 1]);
        UnionFind.LinkForest(g, x, ns[i - 1])
      else g
  }

  /** The forest after the linking loop of `updateWinner` for the stone at `x`. */
  ghost function Linked(n: int, f: UnionFind.Forest, b: seq<Player>, x: int, p: Player): (g: UnionFind.Forest)
    requires n > 0 && UnionFind.Valid(f) && |f.parents| == n * n && |b| == n * n && 0 <= x < n * n
    ensures UnionFind.Valid(g) && |g.parents| == n * n
  {
    LinkedUpTo(f, x, NeighborsOf(n, x), b, p, |NeighborsOf(n, x)|)
  }

  /** The linking loop is `link(x, y)` for each friendly y in turn. */
  lemma {:induction false} LinkedUpToIsLinkAll(f: UnionFind.Forest, x: int, ns: seq<int>, b: seq<Player>,
                                               p: Player, i: int)
    requires UnionFind.Valid(f) && 0 <= x < |f.parents| && |b| == |f.parents|
    requires InRange(ns, |b|) && 0 <= i <= |ns|
    ensures LinkedUpTo(f, x, ns, b, p, i) == UnionFind.LinkAll(f, x, FriendlyPrefix(ns, b, p, i))
  {
    if i > 0 {
      LinkedUpToIsLinkAll(f, x, ns, b, p, i - 1);
      FriendlySnoc(ns, b, p, i - 1);
      LinkedUpToStep(f, x, ns, b, p, i);
      if b[ns[i - 1]] == p {
        UnionFind.LinkAllSnoc(f, x, FriendlyPrefix(ns, b, p, i - 1), ns[i - 1]);
      }
    }
  }

  lemma LinkedUpToStep(f: UnionFind.Forest, x: int, ns: seq<int>, b: seq<Player>, p: Player, i: int)
    requires UnionFind.Valid(f) && 0 <= x < |f.parents| && |b| == |f.parents|
    requires InRange(ns, |b|) && 0 < i <= |ns|
    ensures var g := LinkedUpTo(f, x, ns, b, p, i - 1);
      LinkedUpTo(f, x, ns, b, p, i) == if b[ns[i - 1]] == p then UnionFind.LinkForest(g, x, ns[i - 1]) else g
  {
  }

  /** The winner once the linking loop has visited ns[0 .. i - 1], starting from `w0`: each
      `link` whose merged mask is a fork or a bridge makes `p` the winner. */
  ghost function WinnerUpTo(f: UnionFind.Forest, x: int, ns: seq<int>, b: seq<Player>, p: Player, i: int,
                            w0: Player): Player
    requires UnionFind.Valid(f) && 0 <= x < |f.parents| && |b| == |f.parents|
    requires InRange(ns, |b|) && 0 <= i <= |ns|
    decreases i
  {
    if i == 0 then w0
    else if b[ns[i - 1]] == p
         && UnionFind.IsWinningMask(UnionFind.MergedMask(LinkedUpTo(f, x, ns, b, p, i - 1), x, ns[i - 1]))
    then p
    else WinnerUpTo(f, x, ns, b, p, i - 1, w0)
  }

  /** Since a winning group stays winning under further links, the loop sets the winner
      exactly when some link happened and x's final group is a fork or a bridge. */
  lemma {:induction false} WinnerUpToMeaning(f: UnionFind.Forest, x: int, ns: seq<int>, b: seq<Player>,
                                             p: Player, i: int, w0: Player)
    requires UnionFind.Valid(f) && 0 <= x < |f.parents| && |b| == |f.parents|
    requires InRange(ns, |b|) && 0 <= i <= |ns|
    ensures WinnerUpTo(f, x, ns, b, p, i, w0) ==
      if AnyOwned(ns, b, p, i) && GroupWins(LinkedUpTo(f, x, ns, b, p, i), x) then p else w0
  {
    if i > 0 {
      WinnerUpToMeaning(f, x, ns, b, p, i - 1, w0);
      LinkedUpToStep(f, x, ns, b, p, i);
      if b[ns[i - 1]] == p {
        UnionFind.LinkMaskGrows(LinkedUpTo(f, x, ns, b, p, i - 1), x, ns[i - 1]);
      }
    }
  }

  /** One step of the marking loop of `hasRing`: `find` on cell `c` when it is playable. */
  ghost function SweepStep(g: UnionFind.Forest, n: int, c: int): (h: UnionFind.Forest)
    requires n > 0 && UnionFind.Valid(g) && 0 <= c < |g.parents|
    ensures UnionFind.Valid(h) && |h.parents| == |g.parents|
    ensures h.ranks == g.ranks && h.patterns == g.patterns
  {
    UnionFind.CompressValid(g, c);
    if IsOnBoardCell(n, c) then UnionFind.Compress(g, c) else g
  }

  /** The forest after the marking loop of `hasRing` has reached cell `i`: `find` on the
      action's cell, then on every playable cell below `i`, in index order. */
  ghost function Swept(f: UnionFind.Forest, n: int, action: int, i: int): (g: UnionFind.Forest)
    requires n > 0 && UnionFind.Valid(f) && 0 <= action < |f.parents| && 0 <= i <= |f.parents|
    ensures UnionFind.Valid(g) && |g.parents| == |f.parents|
    ensures g.ranks == f.ranks && g.patterns == f.patterns
    decreases i
  {
    if i == 0 then
      UnionFind.CompressValid(f, action);
      UnionFind.Compress(f, action)
    else
      SweepStep(Swept(f, n, action, i - 1), n, i - 1)
  }

  /** A step of the marking loop changes no root. */
  lemma SweepStepRoots(g: UnionFind.Forest, n: int, c: int, y: int)
    requires n > 0 && UnionFind.Valid(g) && 0 <= c < |g.parents| && 0 <= y < |g.parents|
    ensures UnionFind.Root(SweepStep(g, n, c), y) == UnionFind.Root(g, y)
  {
    UnionFind.CompressRoots(g, c, y);
  }

  /** The `find` calls of the marking loop change no root. */
  lemma {:induction false} SweptRoots(f: UnionFind.Forest, n: int, action: int, i: int, y: int)
    requires n > 0 && UnionFind.Valid(f) && 0 <= action < |f.parents| && 0 <= i <= |f.parents|
    requires 0 <= y < |f.parents|
    ensures UnionFind.Root(Swept(f, n, action, i), y) == UnionFind.Root(f, y)
    decreases i
  {
    if i == 0 {
      UnionFind.CompressRoots(f, action, y);
    } else {
      SweptRoots(f, n, action, i - 1, y);
      SweptOneMore(f, n, action, i, y);
    }
  }

  /** The marking loop's `find` on cell i - 1 keeps the roots it found. */
  lemma SweptOneMore(f: UnionFind.Forest, n: int, action: int, i: int, y: int)
    requires n > 0 && UnionFind.Valid(f) && 0 <= action < |f.parents| && 0 < i <= |f.parents|
    requires 0 <= y < |f.parents|
    ensures UnionFind.Root(Swept(f, n, action, i), y) == UnionFind.Root(Swept(f, n, action, i - 1), y)
  {
    var g := Swept(f, n, action, i - 1);
    assert Swept(f, n, action, i) == SweepStep(g, n, i - 1);
    SweepStepRoots(g, n, i - 1, y);
  }

  /** The playable cells of x's group: the marking `hasRing` starts its peeling from. */
  ghost function GroupMarks(n: int, f: UnionFind.Forest, x: int): (g: seq<bool>)
    requires n > 0 && UnionFind.Valid(f) && |f.parents| == n * n && 0 <= x < n * n
    ensures |g| == n * n
  {
    seq(n * n, c requires 0 <= c < n * n =>
      IsOnBoardCell(n, c) && UnionFind.Root(f, c) == UnionFind.Root(f, x))
  }

  /** The marking loop's `find` calls change no group, no root and no mask. */
  lemma SweptKeepsGroups(n: int, f: UnionFind.Forest, action: int)
    requires n > 0 && UnionFind.Valid(f) && |f.parents| == n * n && 0 <= action < n * n
    ensures GroupMarks(n, Swept(f, n, action, n * n), action) == GroupMarks(n, f, action)
    ensures UnionFind.Root(Swept(f, n, action, n * n), action) == UnionFind.Root(f, action)
    ensures Swept(f, n, action, n * n).patterns == f.patterns
  {
    forall c | 0 <= c < n * n
      ensures UnionFind.Root(Swept(f, n, action, n * n), c) == UnionFind.Root(f, c)
    {
      SweptRoots(f, n, action, n * n, c);
    }
    SweptRoots(f, n, action, n * n, action);
  }

  /** The marks of x's group among cells 0 .. i - 1: what the marking loop of `hasRing`
      has set when it reaches cell `i`. */
  ghost function MarkedBelow(n: int, f: UnionFind.Forest, x: int, i: int): (g: seq<bool>)
    requires n > 0 && UnionFind.Valid(f) && |f.parents| == n * n && 0 <= x < n * n
    ensures |g| == n * n
  {
    seq(n * n, c requires 0 <= c < n * n =>
      c < i && IsOnBoardCell(n, c) && UnionFind.Root(f, c) == UnionFind.Root(f, x))
  }

  lemma MarkedBelowSnoc(n: int, f: UnionFind.Forest, x: int, i: int)
    requires n > 0 && UnionFind.Valid(f) && |f.parents| == n * n && 0 <= x < n * n && 0 <= i < n * n
    ensures IsOnBoardCell(n, i) && UnionFind.Root(f, i) == UnionFind.Root(f, x) ==>
      MarkedBelow(n, f, x, i + 1) == MarkedBelow(n, f, x, i)[i := true]
    ensures !(IsOnBoardCell(n, i) && UnionFind.Root(f, i) == UnionFind.Root(f, x)) ==>
      MarkedBelow(n, f, x, i + 1) == MarkedBelow(n, f, x, i)
    ensures !MarkedBelow(n, f, x, i)[i]
  {
  }

  /** Before the marking loop no cell is marked. */
  lemma MarkedBelowNone(n: int, f: UnionFind.Forest, x: int)
    requires n > 0 && UnionFind.Valid(f) && |f.parents| == n * n && 0 <= x < n * n
    ensures MarkedBelow(n, f, x, 0) == seq(n * n, c => false)
    ensures Count(MarkedBelow(n, f, x, 0)) == 0
    ensures Swept(f, n, x, 0) == UnionFind.Compress(f, x)
  {
    CountNone(MarkedBelow(n, f, x, 0));
  }

  /** After the marking loop exactly the playable cells of x's group are marked. */
  lemma MarkedBelowAll(n: int, f: UnionFind.Forest, x: int)
    requires n > 0 && UnionFind.Valid(f) && |f.parents| == n * n && 0 <= x < n * n
    ensures MarkedBelow(n, f, x, n * n) == GroupMarks(n, f, x)
  {
  }

  /** x's group touches two corners or three edges. */
  ghost predicate GroupWins(f: UnionFind.Forest, x: int)
    requires UnionFind.Valid(f) && 0 <= x < |f.parents|
  {
    UnionFind.IsWinningMask(f.patterns[UnionFind.Root(f, x)])
  }

  /** What makes the stone at `x` win for `p` once the union-find has been updated: it
      joined at least one friendly neighbour and x's group now touches two corners or three
      edges, or x's group holds a ring core. */
  ghost predicate MoverWins(n: int, f: UnionFind.Forest, b: seq<Player>, x: int, p: Player)
    requires n > 0 && UnionFind.Valid(f) && |f.parents| == n * n && |b| == n * n && 0 <= x < n * n
  {
    || (AnyOwned(NeighborsOf(n, x), b, p, |NeighborsOf(n, x)|) && GroupWins(f, x))
    || exists k :: IsRingCore(n, k, GroupMarks(n, f, x))
  }

  /** The marking sweep does not change whether the stone wins. */
  lemma SweptMoverWins(n: int, f: UnionFind.Forest, b: seq<Player>, x: int, p: Player)
    requires n > 0 && UnionFind.Valid(f) && |f.parents| == n * n && |b| == n * n && 0 <= x < n * n
    ensures UnionFind.Valid(Swept(f, n, x, n * n)) && |Swept(f, n, x, n * n).parents| == n * n
    ensures MoverWins(n, Swept(f, n, x, n * n), b, x, p) <==>
      (AnyOwned(NeighborsOf(n, x), b, p, |NeighborsOf(n, x)|) && GroupWins(f, x))
      || exists k :: IsRingCore(n, k, GroupMarks(n, f, x))
  {
    SweptKeepsGroups(n, f, x);
  }

  /** The bookkeeping invariant of the board: stones only on playable cells and only where a
      move was recorded, the legal mask is "playable and empty, or the swap cell", the
      counter counts the playable empty cells and the turn alternates with the history. */
  ghost predicate BoardOk(n: int, swapRule: bool, b: seq<Player>, lg: seq<bool>, acts: seq<Action>,
                          turn: Player, winner: Player, counter: int)
    requires n > 0
  {
    && |b| == n * n && |lg| == n * n
    && (forall c :: 0 <= c < n * n ==> b[c] != Size && (!IsOnBoardCell(n, c) ==> b[c] == None))
    && (forall c :: 0 <= c < n * n ==>
          lg[c] == (IsOnBoardCell(n, c) && (b[c] == None || InSwapWindow(swapRule, acts, c))))
    && (forall c :: 0 <= c < n * n && b[c] != None ==> c in Ids(acts))
    && (forall i :: 0 <= i < |acts| ==> 0 <= acts[i].id < n * n)
    && (|acts| == 1 ==> b[acts[0].id] != None)
    && counter == EmptyCount(n, b)
    && IsSide(turn) && (turn == P1 <==> |acts| % 2 == 0)
    && winner != Size
  }

  /** Every union-find edge joins two stones of the same colour. */
  ghost predicate Coloured(b: seq<Player>, f: UnionFind.Forest) {
    && |b| == |f.parents|
    && forall c :: 0 <= c < |f.parents| && f.parents[c] != c ==>
         b[c] != None && 0 <= f.parents[c] < |b| && b[f.parents[c]] == b[c]
  }

  // ---------------------------------------------------------------- colouring lemmas

  /** A cell and its root have the same colour. */
  lemma {:induction false} ColouredRoot(b: seq<Player>, f: UnionFind.Forest, x: int)
    requires UnionFind.Valid(f) && Coloured(b, f) && 0 <= x < |f.parents|
    ensures UnionFind.Root(f, x) == x || (b[x] != None && b[UnionFind.Root(f, x)] == b[x])
    decreases UnionFind.MaxRank(f.ranks) - f.ranks[x]
  {
    if f.parents[x] != x {
      ColouredRoot(b, f, f.parents[x]);
    }
  }

  /** Two distinct cells of one group are stones of the same colour. */
  lemma GroupColour(b: seq<Player>, f: UnionFind.Forest, c: int, d: int)
    requires UnionFind.Valid(f) && Coloured(b, f) && 0 <= c < |f.parents| && 0 <= d < |f.parents|
    requires UnionFind.Root(f, c) == UnionFind.Root(f, d) && c != d
    ensures b[c] != None && b[c] == b[d]
  {
    ColouredRoot(b, f, c);
    ColouredRoot(b, f, d);
  }

  lemma ColouredCompress(b: seq<Player>, f: UnionFind.Forest, x: int)
    requires UnionFind.Valid(f) && Coloured(b, f) && 0 <= x < |f.parents|
    ensures Coloured(b, UnionFind.Compress(f, x))
  {
    var g := UnionFind.Compress(f, x);
    forall c | 0 <= c < |g.parents| && g.parents[c] != c
      ensures b[c] != None && 0 <= g.parents[c] < |b| && b[g.parents[c]] == b[c]
    {
      UnionFind.CompressParents(f, x, c);
      if UnionFind.OnPath(f, x, c) {
        UnionFind.OnPathRoot(f, x, c);
        ColouredRoot(b, f, c);
      }
    }
  }

  /** Single-coloured edges, stated through roots: every cell below a root is a stone of
      its root's colour. */
  ghost predicate RootColoured(b: seq<Player>, f: UnionFind.Forest)
    requires UnionFind.Valid(f) && |b| == |f.parents|
  {
    forall c :: 0 <= c < |f.parents| && UnionFind.Root(f, c) != c ==>
      b[c] != None && b[UnionFind.Root(f, c)] == b[c]
  }

  lemma ColouredByRoots(b: seq<Player>, f: UnionFind.Forest)
    requires UnionFind.Valid(f) && |b| == |f.parents|
    ensures Coloured(b, f) <==> RootColoured(b, f)
  {
    if Coloured(b, f) {
      forall c | 0 <= c < |f.parents| && UnionFind.Root(f, c) != c
        ensures b[c] != None && b[UnionFind.Root(f, c)] == b[c]
      {
        ColouredRoot(b, f, c);
      }
    }
    if RootColoured(b, f) {
      forall c | 0 <= c < |f.parents| && f.parents[c] != c
        ensures b[c] != None && 0 <= f.parents[c] < |b| && b[f.parents[c]] == b[c]
      {
        assert UnionFind.Root(f, f.parents[c]) == UnionFind.Root(f, c);
      }
    }
  }

  /** The `find` calls of the marking loop keep every edge single-coloured, since they
      change no root. */
  lemma ColouredSwept(b: seq<Player>, f: UnionFind.Forest, n: int, action: int, i: int)
    requires n > 0 && UnionFind.Valid(f) && 0 <= action < |f.parents| && 0 <= i <= |f.parents|
    requires Coloured(b, f)
    ensures Coloured(b, Swept(f, n, action, i))
  {
    var g := Swept(f, n, action, i);
    ColouredByRoots(b, f);
    forall c | 0 <= c < |g.parents|
      ensures UnionFind.Root(g, c) == UnionFind.Root(f, c)
    {
      SweptRoots(f, n, action, i, c);
    }
    ColouredByRoots(b, g);
  }

  /** Linking two stones of the same colour keeps every edge single-coloured. */
  lemma ColouredLink(b: seq<Player>, f: UnionFind.Forest, x: int, y: int)
    requires UnionFind.Valid(f) && Coloured(b, f) && 0 <= x < |f.parents| && 0 <= y < |f.parents|
    requires b[x] != None && b[y] == b[x]
    ensures Coloured(b, UnionFind.LinkForest(f, x, y))
  {
    UnionFind.LinkForestParts(f, x, y);
    var f2 := UnionFind.Compress(UnionFind.Compress(f, x), y);
    ColouredCompress(b, f, x);
    ColouredCompress(b, UnionFind.Compress(f, x), y);
    ColouredRoot(b, f, x);
    ColouredRoot(b, f, y);
    var s, a := UnionFind.Survivor(f, x, y), UnionFind.Absorbed(f, x, y);
    assert b[s] == b[x] && b[a] == b[x];
    var l := UnionFind.LinkForest(f, x, y);
    forall c | 0 <= c < |l.parents| && l.parents[c] != c
      ensures b[c] != None && 0 <= l.parents[c] < |b| && b[l.parents[c]] == b[c]
    {
      if c != a {
        assert l.parents[c] == f2.parents[c];
      }
    }
  }

  /** Linking x with its neighbours of x's own colour keeps every edge single-coloured. */
  lemma {:induction false} ColouredLinked(f: UnionFind.Forest, x: int, ns: seq<int>, b: seq<Player>, i: int)
    requires UnionFind.Valid(f) && 0 <= x < |f.parents| && |b| == |f.parents|
    requires InRange(ns, |b|) && 0 <= i <= |ns|
    requires Coloured(b, f) && b[x] != None
    ensures Coloured(b, LinkedUpTo(f, x, ns, b, b[x], i))
    decreases i
  {
    if i > 0 {
      ColouredLinked(f, x, ns, b, i - 1);
      if b[ns[i - 1]] == b[x] {
        ColouredLink(b, LinkedUpTo(f, x, ns, b, b[x], i - 1), x, ns[i - 1]);
      }
    }
  }

  /** Recolouring a cell that is alone in its group keeps every edge single-coloured; an
      empty cell is always alone. */
  lemma ColouredPlace(b: seq<Player>, f: UnionFind.Forest, c: int, p: Player)
    requires UnionFind.Valid(f) && Coloured(b, f) && 0 <= c < |b| && p != None
    requires b[c] == None || forall d :: 0 <= d < |b| && d != c ==> b[d] == None
    ensures Coloured(b[c := p], f)
  {
  }

  // ---------------------------------------------------------------- the bookkeeping of a move

  /** Changing one cell changes the number of playable empty cells by at most one: minus
      one when a playable empty cell is filled, plus one when one is emptied. */
  lemma {:induction false} EmptyUpToUpdate(n: int, b: seq<Player>, c: int, p: Player, k: int)
    requires n > 0 && 0 <= c < |b| && 0 <= k <= |b|
    ensures EmptyUpTo(n, b[c := p], k) ==
      EmptyUpTo(n, b, k)
      - (if c < k && IsOnBoardCell(n, c) && b[c] == None then 1 else 0)
      + (if c < k && IsOnBoardCell(n, c) && p == None then 1 else 0)
  {
    if k > 0 {
      EmptyUpToUpdate(n, b, c, p, k - 1);
    }
  }

  /** The counter is zero exactly when every playable cell holds a stone. */
  lemma {:induction false} EmptyUpToZero(n: int, b: seq<Player>, k: int)
    requires n > 0 && 0 <= k <= |b|
    ensures EmptyUpTo(n, b, k) == 0 <==> forall c :: 0 <= c < k && IsOnBoardCell(n, c) ==> b[c] != None
  {
    if k > 0 {
      EmptyUpToZero(n, b, k - 1);
    }
  }

  /** The legal mask after the move `a` of `act`, `acts` being the history before it: the
      cell is no longer legal, except that under the swap rule the first move's cell stays
      legal for one move, and the second move, unless it swaps, closes it. */
  function NextLegal(swapRule: bool, lg: seq<bool>, acts: seq<Action>, id: int): (r: seq<bool>)
    requires 0 <= id < |lg| && (|acts| >= 1 ==> 0 <= acts[0].id < |lg|)
    ensures |r| == |lg|
    // the played cell stays open only for the first move under the swap rule
    ensures r[id] <==> swapRule && |acts| == 0
    // the second move under the swap rule closes the first move's cell
    ensures swapRule && |acts| == 1 ==> !r[acts[0].id]
  {
    var l := lg[id := false];
    if swapRule && |acts| == 0 then l[id := true]
    else if swapRule && |acts| == 1 && acts[0].id != id then l[acts[0].id := false]
    else l
  }

  /** The empty-cell counter after the move: one fewer, unless the move swaps. */
  function NextCounter(swapRule: bool, counter: int, acts: seq<Action>, id: int): (r: int)
    requires |acts| >= 1 ==> 0 <= acts[0].id
    ensures r == counter - 1 || r == counter
    ensures r == counter <==> swapRule && |acts| == 1 && acts[0].id == id
  {
    if swapRule && |acts| == 1 && acts[0].id == id then counter else counter - 1
  }

  /** The mask after a move still marks exactly the playable cells that are empty or open
      to the swap. */
  lemma NextLegalMeaning(n: int, swapRule: bool, b: seq<Player>, lg: seq<bool>, acts: seq<Action>,
                         turn: Player, winner: Player, counter: int, a: Action)
    requires n > 0 && BoardOk(n, swapRule, b, lg, acts, turn, winner, counter)
    requires 0 <= a.id < n * n && a.player == turn && lg[a.id]
    ensures var b', lg' := b[a.id := a.player], NextLegal(swapRule, lg, acts, a.id);
      forall c :: 0 <= c < n * n ==>
        lg'[c] == (IsOnBoardCell(n, c) && (b'[c] == None || InSwapWindow(swapRule, acts + [a], c)))
  {
    var id, acts' := a.id, acts + [a];
    var b', lg' := b[id := a.player], NextLegal(swapRule, lg, acts, id);
    forall c | 0 <= c < n * n
      ensures lg'[c] == (IsOnBoardCell(n, c) && (b'[c] == None || InSwapWindow(swapRule, acts', c)))
    {
      if c == id {
        assert acts'[0] == (if |acts| == 0 then a else acts[0]);
      } else if swapRule && |acts| == 1 && c == acts[0].id {
        assert lg'[c] == false && b'[c] != None;
      } else {
        assert lg'[c] == lg[c];
        assert acts'[0] == (if |acts| == 0 then a else acts[0]);
      }
    }
  }

  /** Every occupied cell is still one of the recorded moves. */
  lemma NextHistory(n: int, swapRule: bool, b: seq<Player>, lg: seq<bool>, acts: seq<Action>,
                    turn: Player, winner: Player, counter: int, a: Action)
    requires n > 0 && BoardOk(n, swapRule, b, lg, acts, turn, winner, counter)
    requires 0 <= a.id < n * n && a.player == turn && lg[a.id]
    ensures var b' := b[a.id := a.player];
      forall c :: 0 <= c < n * n && b'[c] != None ==> c in Ids(acts + [a])
  {
    var acts' := acts + [a];
    forall c | 0 <= c < n * n && b[a.id := a.player][c] != None
      ensures c in Ids(acts')
    {
      if c != a.id {
        var k :| 0 <= k < |acts| && Ids(acts)[k] == c;
        assert Ids(acts')[k] == c;
      } else {
        assert Ids(acts')[|acts|] == a.id;
      }
    }
  }

  /** The counter after a move still counts the playable empty cells. */
  lemma NextCounterMeaning(n: int, swapRule: bool, b: seq<Player>, lg: seq<bool>, acts: seq<Action>,
                           turn: Player, winner: Player, counter: int, a: Action)
    requires n > 0 && BoardOk(n, swapRule, b, lg, acts, turn, winner, counter)
    requires 0 <= a.id < n * n && a.player == turn && lg[a.id]
    ensures NextCounter(swapRule, counter, acts, a.id) == EmptyCount(n, b[a.id := a.player])
  {
    assert b[a.id] == None || InSwapWindow(swapRule, acts, a.id);
    EmptyUpToUpdate(n, b, a.id, a.player, |b|);
  }

  /** The legal mask and counter after a move, case by case under the swap rule. */
  lemma SwapCases(swapRule: bool, lg: seq<bool>, acts: seq<Action>, id: int, counter: int)
    requires 0 <= id < |lg| && (|acts| >= 1 ==> 0 <= acts[0].id < |lg|)
    ensures var lg', c' := NextLegal(swapRule, lg, acts, id), NextCounter(swapRule, counter, acts, id);
      && (!(swapRule && |acts| <= 1) ==> !lg'[id] && c' == counter - 1)
      && (swapRule && |acts| == 0 ==> lg'[id] && c' == counter - 1)
      && (swapRule && |acts| == 1 && id == acts[0].id ==> !lg'[id] && c' == counter)
      && (swapRule && |acts| == 1 && id != acts[0].id ==> !lg'[id] && !lg'[acts[0].id] && c' == counter - 1)
  {
  }

  /** The stones after a move on a playable cell: none is the sentinel, and cells off the
      hexagon stay empty. */
  lemma NextStones(n: int, b: seq<Player>, c: int, p: Player)
    requires n > 0 && |b| == n * n && 0 <= c < n * n && IsOnBoardCell(n, c) && IsSide(p)
    requires forall d :: 0 <= d < n * n ==> b[d] != Size && (!IsOnBoardCell(n, d) ==> b[d] == None)
    ensures forall d :: 0 <= d < n * n ==>
      b[c := p][d] != Size && (!IsOnBoardCell(n, d) ==> b[c := p][d] == None)
  {
    forall d | 0 <= d < n * n
      ensures b[c := p][d] != Size && (!IsOnBoardCell(n, d) ==> b[c := p][d] == None)
    {
      if d != c {
        assert b[c := p][d] == b[d];
      }
    }
  }

  /** The history after a move: every recorded cell is on the grid, and the first move's
      cell holds a stone. */
  lemma NextActions(n: int, b: seq<Player>, acts: seq<Action>, a: Action)
    requires |b| == n * n && 0 <= a.id < n * n && a.player != None
    requires forall i :: 0 <= i < |acts| ==> 0 <= acts[i].id < n * n
    requires |acts| == 1 ==> b[acts[0].id] != None
    ensures var b', acts' := b[a.id := a.player], acts + [a];
      && (forall i :: 0 <= i < |acts'| ==> 0 <= acts'[i].id < n * n)
      && (|acts'| == 1 ==> b'[acts'[0].id] != None)
  {
    var acts' := acts + [a];
    forall i | 0 <= i < |acts'|
      ensures 0 <= acts'[i].id < n * n
    {
      if i < |acts| {
        assert acts'[i] == acts[i];
      }
    }
    if |acts'| == 1 {
      assert acts'[0] == a;
    }
  }

  /** The turn after a move passes to the other side, and stays in step with the history. */
  lemma NextTurn(acts: seq<Action>, a: Action)
    requires IsSide(a.player) && (a.player == P1 <==> |acts| % 2 == 0)
    ensures var t := GetNextPlayer(a.player, 2);
      IsSide(t) && (t == P1 <==> |acts + [a]| % 2 == 0)
  {
  }

  /** A legal move by the player to move keeps the bookkeeping invariant of the board: the
      stone goes on the cell (a swap recolours the first stone), the legal mask and the
      counter follow, and the turn passes to the other side. */
  lemma MoveKeepsBoard(n: int, swapRule: bool, b: seq<Player>, lg: seq<bool>, acts: seq<Action>,
                       turn: Player, winner: Player, counter: int, a: Action, winner': Player)
    requires n > 0 && BoardOk(n, swapRule, b, lg, acts, turn, winner, counter)
    requires 0 <= a.id < n * n && a.player == turn && lg[a.id] && winner' != Size
    ensures BoardOk(n, swapRule, b[a.id := a.player], NextLegal(swapRule, lg, acts, a.id), acts + [a],
                    GetNextPlayer(a.player, 2), winner', NextCounter(swapRule, counter, acts, a.id))
  {
    NextLegalMeaning(n, swapRule, b, lg, acts, turn, winner, counter, a);
    NextHistory(n, swapRule, b, lg, acts, turn, winner, counter, a);
    NextCounterMeaning(n, swapRule, b, lg, acts, turn, winner, counter, a);
    assert IsOnBoardCell(n, a.id);
    NextStones(n, b, a.id, a.player);
    NextActions(n, b, acts, a);
    NextTurn(acts, a);
  }

  /** Placing a legal stone, linking it and sweeping the marking loop keep every union-find
      edge single-coloured. */
  lemma ColouredMove(n: int, swapRule: bool, b: seq<Player>, lg: seq<bool>, acts: seq<Action>,
                     turn: Player, winner: Player, counter: int, f: UnionFind.Forest, a: Action)
    requires n > 0 && BoardOk(n, swapRule, b, lg, acts, turn, winner, counter)
    requires UnionFind.Valid(f) && |f.parents| == n * n && Coloured(b, f)
    requires 0 <= a.id < n * n && a.player == turn && lg[a.id]
    ensures var b' := b[a.id := a.player];
      Coloured(b', Swept(Linked(n, f, b', a.id, a.player), n, a.id, n * n))
  {
    var id := a.id;
    var b' := b[id := a.player];
    if b[id] != None {
      assert InSwapWindow(swapRule, acts, id);
      assert Ids(acts) == [id];
    }
    ColouredPlace(b, f, id, a.player);
    ColouredLinked(f, id, NeighborsOf(n, id), b', |NeighborsOf(n, id)|);
    ColouredSwept(b', Linked(n, f, b', id, a.player), n, id, n * n);
  }

  /** After the linking loop of `updateWinner` for the stone at `x`, two cells share a
      root exactly when they did before, or both lie in x's group or the group of one of
      x's neighbours that hold a stone of `p`. */
  lemma LinkedGroups(n: int, f: UnionFind.Forest, b: seq<Player>, x: int, p: Player, u: int, v: int)
    requires n > 0 && UnionFind.Valid(f) && |f.parents| == n * n && |b| == n * n && 0 <= x < n * n
    requires 0 <= u < n * n && 0 <= v < n * n
    ensures var g, ys := Linked(n, f, b, x, p), Friendly(NeighborsOf(n, x), b, p);
      UnionFind.Root(g, u) == UnionFind.Root(g, v) <==>
        UnionFind.Root(f, u) == UnionFind.Root(f, v) ||
        (UnionFind.InGroupOf(f, x, ys, u) && UnionFind.InGroupOf(f, x, ys, v))
  {
    var ns := NeighborsOf(n, x);
    LinkedUpToIsLinkAll(f, x, ns, b, p, |ns|);
    assert ns[..|ns|] == ns;
    UnionFind.LinkAllGroups(f, x, Friendly(ns, b, p), u, v);
  }

  // ---------------------------------------------------------------- network input

  /** Feature `ch` of cell `pos`: 0 = the mover's stone, 1 = the opponent's stone,
      2 = black (player 1) to move, 3 = white (player 2) to move. */
  function FeatureValue(b: seq<Player>, turn: Player, ch: int, pos: int): int
    requires 0 <= pos < |b|
  {
    if ch == 0 then (if b[pos] == turn then 1 else 0)
    else if ch == 1 then (if b[pos] == GetNextPlayer(turn, 2) then 1 else 0)
    else if ch == 2 then (if turn == P1 then 1 else 0)
    else if ch == 3 then (if turn == P2 then 1 else 0)
    else 0
  }

  /** Channel `ch`: one value per cell. */
  function Plane(b: seq<Player>, turn: Player, ch: int): (r: seq<int>)
    ensures |r| == |b|
  {
    seq(|b|, pos requires 0 <= pos < |b| => FeatureValue(b, turn, ch, pos))
  }

  /** Channels 0 .. k - 1, one after the other. */
  function Planes(b: seq<Player>, turn: Player, k: nat): (r: seq<int>)
    ensures |r| == k * |b|
  {
    if k == 0 then [] else Planes(b, turn, k - 1) + Plane(b, turn, k - 1)
  }

  /** The loops of `getFeatures` over channels 0 .. 3 and the cells. */
  method FeaturePlanes(b: seq<Player>, turn: Player) returns (v: seq<int>)
    ensures |v| == 4 * |b|
    ensures forall q :: 0 <= q < |b| ==> v[q] == (if b[q] == turn then 1 else 0)
    ensures forall q :: |b| <= q < 2 * |b| ==>
      v[q] == (if b[q - |b|] == GetNextPlayer(turn, 2) then 1 else 0)
    ensures forall q :: 2 * |b| <= q < 3 * |b| ==> v[q] == (if turn == P1 then 1 else 0)
    ensures forall q :: 3 * |b| <= q < 4 * |b| ==> v[q] == (if turn == P2 then 1 else 0)
  {
    v := [];
    for channel := 0 to 4
      invariant v == Planes(b, turn, channel)
    {
      for pos := 0 to |b|
        invariant v == Planes(b, turn, channel) + Plane(b, turn, channel)[..pos]
      {
        assert Plane(b, turn, channel)[..pos + 1] == Plane(b, turn, channel)[..pos] + [FeatureValue(b, turn, channel, pos)];
        v := v + [FeatureValue(b, turn, channel, pos)];
      }
      assert Plane(b, turn, channel)[..|b|] == Plane(b, turn, channel);
    }
    FourPlanes(b, turn);
  }

  /** The four channels of the network input: which cells hold the mover's stones, which
      the opponent's, and two constant planes telling whose turn it is. */
  lemma FourPlanes(b: seq<Player>, turn: Player)
    ensures forall q :: 0 <= q < |b| ==> Planes(b, turn, 4)[q] == (if b[q] == turn then 1 else 0)
    ensures forall q :: |b| <= q < 2 * |b| ==>
      Planes(b, turn, 4)[q] == (if b[q - |b|] == GetNextPlayer(turn, 2) then 1 else 0)
    ensures forall q :: 2 * |b| <= q < 3 * |b| ==> Planes(b, turn, 4)[q] == (if turn == P1 then 1 else 0)
    ensures forall q :: 3 * |b| <= q < 4 * |b| ==> Planes(b, turn, 4)[q] == (if turn == P2 then 1 else 0)
  {
    PlanesFour(b, turn);
    PlaneValues(b, turn, Planes(b, turn, 4));
  }

  lemma PlaneValues(b: seq<Player>, turn: Player, all: seq<int>)
    requires all == (Plane(b, turn, 0) + Plane(b, turn, 1)) + (Plane(b, turn, 2) + Plane(b, turn, 3))
    ensures forall q :: 0 <= q < |b| ==> all[q] == (if b[q] == turn then 1 else 0)
    ensures forall q :: |b| <= q < 2 * |b| ==>
      all[q] == (if b[q - |b|] == GetNextPlayer(turn, 2) then 1 else 0)
    ensures forall q :: 2 * |b| <= q < 3 * |b| ==> all[q] == (if turn == P1 then 1 else 0)
    ensures forall q :: 3 * |b| <= q < 4 * |b| ==> all[q] == (if turn == P2 then 1 else 0)
  {
  }

  lemma PlanesFour(b: seq<Player>, turn: Player)
    ensures Planes(b, turn, 4) == (Plane(b, turn, 0) + Plane(b, turn, 1)) + (Plane(b, turn, 2) + Plane(b, turn, 3))
  {
    var p0, p1, p2, p3 := Plane(b, turn, 0), Plane(b, turn, 1), Plane(b, turn, 2), Plane(b, turn, 3);
    assert Planes(b, turn, 2) == p0 + p1 by {
      assert Planes(b, turn, 1) == p0;
    }
  }

  /** The vectors `reset` builds: an empty board, the legal mask of the playable cells,
      every cell its own parent with rank 0, and each cell's corner/edge pattern. */
  function EmptyBoard(n: int): seq<Player> {
    seq(n * n, c => None)
  }

  function OnBoardMask(n: int): seq<bool>
    requires n > 0
  {
    seq(n * n, c => IsOnBoardCell(n, c))
  }

  function OwnParents(n: int): seq<int> {
    seq(n * n, c => c)
  }

  function ZeroRanks(n: int): seq<int> {
    seq(n * n, c => 0)
  }

  function CellPatterns(n: int): seq<int>
    requires n > 0
  {
    seq(n * n, c => GetPattern(n, Row(n, c), Col(n, c)))
  }

  /** On the empty board every playable cell is empty. */
  lemma {:induction false} EmptyBoardCount(n: int, k: nat)
    requires n > 0 && k <= n * n
    ensures EmptyUpTo(n, EmptyBoard(n), k) == PlayableUpTo(n, k)
  {
    if k > 0 {
      EmptyBoardCount(n, k - 1);
    }
  }

  /** Cells 0 .. t - 1 hold what `reset` writes into them. */
  ghost predicate Filled(n: int, t: int, legal: seq<bool>, parents: seq<int>, ranks: seq<int>,
                         patterns: seq<int>)
  {
    && n > 0 && 0 <= t <= n * n
    && |legal| == n * n && |parents| == n * n && |ranks| == n * n && |patterns| == n * n
    && legal[..t] == OnBoardMask(n)[..t] && parents[..t] == OwnParents(n)[..t]
    && ranks[..t] == ZeroRanks(n)[..t] && patterns[..t] == CellPatterns(n)[..t]
  }

  /** Writing the wanted value at index `t` extends a matching prefix by one. */
  lemma PrefixStep<T>(s: seq<T>, want: seq<T>, t: int, x: T)
    requires 0 <= t < |s| == |want| && s[..t] == want[..t] && want[t] == x
    ensures s[t := x][..t + 1] == want[..t + 1]
  {
    assert s[t := x][..t + 1] == s[..t] + [x];
    assert want[..t + 1] == want[..t] + [x];
  }

  lemma FilledStep(n: int, i: int, j: int, t: int, legal: seq<bool>, parents: seq<int>,
                   ranks: seq<int>, patterns: seq<int>)
    requires ValidSize(n) && 0 <= i < n && 0 <= j < n && t == i * n + j
    requires Filled(n, t, legal, parents, ranks, patterns)
    ensures 0 <= t < n * n
    ensures Filled(n, t + 1, legal[t := IsOnBoard(n, i, j)], parents[t := t], ranks[t := 0],
                   patterns[t := GetPattern(n, i, j)])
    ensures PlayableUpTo(n, t + 1) == PlayableUpTo(n, t) + (if IsOnBoard(n, i, j) then 1 else 0)
  {
    CellIndexBound(n, i, j);
    PrefixStep(legal, OnBoardMask(n), t, IsOnBoard(n, i, j));
    PrefixStep(parents, OwnParents(n), t, t);
    PrefixStep(ranks, ZeroRanks(n), t, 0);
    PrefixStep(patterns, CellPatterns(n), t, GetPattern(n, i, j));
  }

  lemma FilledAll(n: int, legal: seq<bool>, parents: seq<int>, ranks: seq<int>, patterns: seq<int>)
    requires ValidSize(n) && Filled(n, n * n, legal, parents, ranks, patterns)
    ensures legal == OnBoardMask(n)
    ensures parents == OwnParents(n) && ranks == ZeroRanks(n)
    ensures patterns == CellPatterns(n)
  {
    assert legal == legal[..n * n];
    assert parents == parents[..n * n];
    assert ranks == ranks[..n * n];
    assert patterns == patterns[..n * n];
  }

  /** Before the loops no cell has been written. */
  lemma FilledNone(n: int, legal: seq<bool>, parents: seq<int>, ranks: seq<int>, patterns: seq<int>)
    requires n > 0
    requires |legal| == n * n && |parents| == n * n && |ranks| == n * n && |patterns| == n * n
    ensures Filled(n, 0, legal, parents, ranks, patterns)
  {
  }

  /** Row `i` of the per-cell loop of `reset`: cell `i * n + j` gets its playability,
      itself as parent, rank 0 and its corner/edge pattern, and the playable cells are
      counted. */
  method ResetRow(n: int, i: int, legal: seq<bool>, parents: seq<int>, ranks: seq<int>,
                  patterns: seq<int>, empty: int)
    returns (legal': seq<bool>, parents': seq<int>, ranks': seq<int>, patterns': seq<int>, empty': int)
    requires ValidSize(n) && 0 <= i < n
    requires Filled(n, i * n, legal, parents, ranks, patterns)
    requires empty == PlayableUpTo(n, i * n)
    ensures Filled(n, (i + 1) * n, legal', parents', ranks', patterns')
    ensures empty' == PlayableUpTo(n, (i + 1) * n)
  {
    legal', parents', ranks', patterns', empty' := legal, parents, ranks, patterns, empty;
    var t := i * n;
    for j := 0 to n
      invariant t == i * n + j
      invariant Filled(n, t, legal', parents', ranks', patterns')
      invariant empty' == PlayableUpTo(n, t)
    {
      FilledStep(n, i, j, t, legal', parents', ranks', patterns');
      var isLegal := IsOnBoard(n, i, j);
      legal' := legal'[t := isLegal];
      empty' := empty' + (if isLegal then 1 else 0);
      ranks' := ranks'[t := 0];
      parents' := parents'[t := t];
      patterns' := patterns'[t := GetPattern(n, i, j)];
      t := t + 1;
    }
    MulSucc(i, n);
  }

  /** The per-cell loops of `reset`, row by row. */
  method ResetCells(n: int) returns (legal: seq<bool>, parents: seq<int>, ranks: seq<int>,
                                       patterns: seq<int>, empty: int)
    requires ValidSize(n)
    ensures legal == OnBoardMask(n)
    ensures parents == OwnParents(n) && ranks == ZeroRanks(n)
    ensures patterns == CellPatterns(n)
    ensures empty == EmptyCount(n, EmptyBoard(n))
    ensures empty == 3 * Inner(n) * Inner(n) - 3 * Inner(n) + 1
  {
    legal, parents, ranks, patterns := seq(n * n, c => false), seq(n * n, c => 0),
                                       seq(n * n, c => 0), seq(n * n, c => 0);
    empty := 0;
    FilledNone(n, legal, parents, ranks, patterns);
    for i := 0 to n
      invariant Filled(n, i * n, legal, parents, ranks, patterns)
      invariant empty == PlayableUpTo(n, i * n)
    {
      legal, parents, ranks, patterns, empty := ResetRow(n, i, legal, parents, ranks, patterns, empty);
    }
    FilledAll(n, legal, parents, ranks, patterns);
    EmptyBoardCount(n, n * n);
    PlayableCount(n);
  }

  /** The state `reset` builds satisfies the invariants: every cell its own root, the mask
      of a cell its 12-bit pattern, the empty board's bookkeeping. */
  lemma InitialOk(n: int, swapRule: bool)
    requires ValidSize(n)
    ensures var b := EmptyBoard(n);
      var f := UnionFind.Forest(OwnParents(n), ZeroRanks(n),
                                CellPatterns(n));
      && UnionFind.Valid(f) && Coloured(b, f)
      && BoardOk(n, swapRule, b, OnBoardMask(n), [], P1, None, EmptyCount(n, b))
  {
    InitialForest(n);
    InitialBoard(n, swapRule);
  }

  lemma InitialForest(n: int)
    requires ValidSize(n)
    ensures var f := UnionFind.Forest(OwnParents(n), ZeroRanks(n),
                                      CellPatterns(n));
      UnionFind.Valid(f) && Coloured(EmptyBoard(n), f)
  {
    assert Pow2(12) == UnionFind.MaskLimit by {
      assert Pow2(4) == 16;
      assert Pow2(8) == 256;
    }
  }

  lemma InitialBoard(n: int, swapRule: bool)
    requires ValidSize(n)
    ensures var b := EmptyBoard(n);
      BoardOk(n, swapRule, b, OnBoardMask(n), [], P1, None, EmptyCount(n, b))
  {
  }

  // ---------------------------------------------------------------- the environment

  class HavannahEnv {
    /** Board size N: an N x N grid of which a hexagon with side (N + 1) / 2 is played. */
    const n: int
    /** Whether the swap rule is in force. */
    const swapRule: bool
    var board: seq<Player>
    var legal: seq<bool>
    // the disjoint-set forest: parent, rank and corner/edge mask of each cell
    var parents: seq<int>
    var ranks: seq<int>
    var patterns: seq<int>
    var winner: Player
    var turn: Player
    var actions: seq<Action>
    var emptyCounter: int

    ghost function Uf(): UnionFind.Forest
      reads this
    {
      UnionFind.Forest(parents, ranks, patterns)
    }

    ghost predicate Shape()
      reads this
    {
      && ValidSize(n)
      && |board| == n * n && |legal| == n * n
      && |parents| == n * n && |ranks| == n * n && |patterns| == n * n
    }

    ghost predicate UfReady()
      reads this
    {
      Shape() && UnionFind.Valid(Uf())
    }

    ghost predicate Valid()
      reads this
    {
      && UfReady()
      && BoardOk(n, swapRule, board, legal, actions, turn, winner, emptyCounter)
      && Coloured(board, Uf())
    }

    /** A fresh environment of size `size`: the board after `reset`. */
    constructor (size: int, useSwap: bool)
      requires ValidSize(size)
      ensures n == size && swapRule == useSwap
      ensures Valid() && Initial()
    {
      n := size;
      swapRule := useSwap;
      board, legal, parents, ranks, patterns := [], [], [], [], [];
      winner, turn, actions, emptyCounter := None, P1, [], 0;
      new;
      Reset();
    }

    /** The state `reset` leaves: an empty board, every playable cell legal, every cell its
        own group holding its corner/edge pattern, player 1 to move. */
    ghost predicate Initial()
      reads this
      requires n > 0
    {
      && board == EmptyBoard(n)
      && legal == OnBoardMask(n)
      && parents == OwnParents(n) && ranks == ZeroRanks(n)
      && patterns == CellPatterns(n)
      && winner == None && turn == P1 && actions == []
      && emptyCounter == EmptyCount(n, board)
    }

    /** `reset()`: clear the board and the history and rebuild every per-cell vector
        row by row. */
    method Reset()
      requires ValidSize(n)
      modifies this
      ensures Valid() && Initial()
      ensures emptyCounter == 3 * Inner(n) * Inner(n) - 3 * Inner(n) + 1
    {
      winner := None;
      turn := P1;
      actions := [];
      board := EmptyBoard(n);
      legal, parents, ranks, patterns, emptyCounter := ResetCells(n);
      InitialValid();
    }

    /** The state `reset` leaves satisfies the class invariant. */
    ghost method InitialValid()
      requires ValidSize(n) && Initial()
      ensures Valid()
    {
      InitialOk(n, swapRule);
    }

    /** `isLegalAction(action)`: the player to move, on a cell the legal mask allows. */
    function IsLegalAction(a: Action): (r: bool)
      reads this
      requires Valid() && 0 <= a.id < n * n && IsSide(a.player)
      ensures r <==> a.player == turn && IsOnBoardCell(n, a.id)
                     && (board[a.id] == None || InSwapWindow(swapRule, actions, a.id))
    {
      a.player == turn && legal[a.id]
    }

    /** `act(action)`: refuse an illegal move and change nothing; otherwise record it,
        place the stone (under the swap rule, choosing the first move's cell again takes
        that stone over), update the legal mask and the counter, find the winner and pass
        the turn. The board invariant is kept, which fixes the new legal mask and counter. */
    method Act(a: Action) returns (ok: bool)
      requires Valid() && 0 <= a.id < n * n && IsSide(a.player)
      modifies this
      ensures Valid()
      ensures ok == (a.player == old(turn) && old(legal[a.id]))
      ensures !ok ==> unchanged(this)
      ensures ok ==> actions == old(actions) + [a] && board == old(board)[a.id := a.player]
      ensures ok ==> turn == GetNextPlayer(a.player, 2)
      ensures ok ==> legal == NextLegal(swapRule, old(legal), old(actions), a.id)
      ensures ok ==> emptyCounter == NextCounter(swapRule, old(emptyCounter), old(actions), a.id)
      ensures ok ==> Uf() == Swept(Linked(n, old(Uf()), board, a.id, a.player), n, a.id, n * n)
      ensures ok ==> winner == if MoverWins(n, Uf(), board, a.id, a.player) then a.player else old(winner)
      // a win is never taken back
      ensures old(winner) != None ==> winner != None
      // outside the swap window: the cell is closed and one playable cell fewer is empty
      ensures ok && !(swapRule && old(|actions|) <= 1) ==>
        !legal[a.id] && emptyCounter == old(emptyCounter) - 1
      // swap rule, first move: its cell stays open for the second player
      ensures ok && swapRule && old(|actions|) == 0 ==> legal[a.id] && emptyCounter == old(emptyCounter) - 1
      // swap rule, second move on the first move's cell: player 2 takes the stone over
      ensures ok && swapRule && old(|actions|) == 1 && a.id == old(actions[0].id) ==>
        board[a.id] == P2 && !legal[a.id] && emptyCounter == old(emptyCounter)
      // swap rule, second move elsewhere: the first move's cell is closed as well
      ensures ok && swapRule && old(|actions|) == 1 && a.id != old(actions[0].id) ==>
        !legal[a.id] && !legal[old(actions[0].id)] && emptyCounter == old(emptyCounter) - 1
    {
      ghost var lg, acts, counter := legal, actions, emptyCounter;
      ok := IsLegalAction(a);
      if ok {
        Play(a);
        SwapCases(swapRule, lg, acts, a.id, counter);
      }
    }

    /** A legal move of `act`: bookkeeping, winner, turn. */
    method Play(a: Action)
      requires Valid() && 0 <= a.id < n * n && a.player == turn && legal[a.id]
      modifies this
      ensures Valid()
      ensures actions == old(actions) + [a] && board == old(board)[a.id := a.player]
      ensures turn == GetNextPlayer(a.player, 2)
      ensures legal == NextLegal(swapRule, old(legal), old(actions), a.id)
      ensures emptyCounter == NextCounter(swapRule, old(emptyCounter), old(actions), a.id)
      ensures Uf() == Swept(Linked(n, old(Uf()), board, a.id, a.player), n, a.id, n * n)
      ensures winner == if MoverWins(n, Uf(), board, a.id, a.player) then a.player else old(winner)
    {
      MoveKeepsValid(a);
      PlaceAndLink(a);
      turn := GetNextPlayer(a.player, 2);
    }

    /** What a legal move keeps: the board invariant for the new board, mask, history and
        counter, and single-coloured groups in the forest after linking and compression. */
    ghost method MoveKeepsValid(a: Action)
      requires Valid() && 0 <= a.id < n * n && a.player == turn && legal[a.id]
      ensures var b' := board[a.id := a.player];
        && BoardOk(n, swapRule, b', NextLegal(swapRule, legal, actions, a.id), actions + [a],
                   GetNextPlayer(a.player, 2), winner, NextCounter(swapRule, emptyCounter, actions, a.id))
        && Coloured(b', Swept(Linked(n, Uf(), b', a.id, a.player), n, a.id, n * n))
    {
      ColouredMove(n, swapRule, board, legal, actions, turn, winner, emptyCounter, Uf(), a);
      MoveKeepsBoard(n, swapRule, board, legal, actions, turn, winner, emptyCounter, a, winner);
    }

    /** The part of `act` before the turn passes: the bookkeeping, then `updateWinner`. */
    method PlaceAndLink(a: Action)
      requires UfReady() && 0 <= a.id < n * n && a.player == turn
      requires |actions| >= 1 ==> 0 <= actions[0].id < n * n
      modifies this`actions, this`board, this`legal, this`emptyCounter
      modifies this`winner, this`parents, this`ranks, this`patterns
      ensures UfReady()
      ensures actions == old(actions) + [a] && board == old(board)[a.id := a.player]
      ensures legal == NextLegal(swapRule, old(legal), old(actions), a.id)
      ensures emptyCounter == NextCounter(swapRule, old(emptyCounter), old(actions), a.id)
      ensures Uf() == Swept(Linked(n, old(Uf()), board, a.id, a.player), n, a.id, n * n)
      ensures winner == if MoverWins(n, Uf(), board, a.id, a.player) then a.player else old(winner)
    {
      Place(a);
      winner := UpdateWinner(a.id);
    }

    /** The bookkeeping half of `act`: record the move, place the stone (when the second
        player chooses the first move's cell under the swap rule, the first stone is cleared
        and replaced), and update the legal mask and the empty-cell counter. */
    method Place(a: Action)
      requires |board| == |legal| && 0 <= a.id < |board|
      requires |actions| >= 1 ==> 0 <= actions[0].id < |board|
      modifies this`actions, this`board, this`legal, this`emptyCounter
      ensures actions == old(actions) + [a] && board == old(board)[a.id := a.player]
      ensures legal == NextLegal(swapRule, old(legal), old(actions), a.id)
      ensures emptyCounter == NextCounter(swapRule, old(emptyCounter), old(actions), a.id)
    {
      actions := actions + [a];
      var id := a.id;
      if swapRule {
        if |actions| == 2 && id == actions[0].id {
          board := board[actions[0].id := None];
        }
      }
      board := board[id := a.player];
      legal := legal[id := false];
      emptyCounter := emptyCounter - 1;
      if |actions| <= 2 && swapRule {
        if |actions| == 1 {
          legal := legal[id := true];
        } else if |actions| == 2 {
          var first := actions[0].id;
          if first == id {
            emptyCounter := emptyCounter + 1;
          } else {
            legal := legal[first := false];
          }
        }
      }
    }

    /** `getLegalActions()`: the legal moves of the player to move, in cell order. */
    method GetLegalActions() returns (acts: seq<Action>)
      requires Valid()
      ensures forall k :: 0 <= k < |acts| ==>
        0 <= acts[k].id < n * n && acts[k].player == turn && IsLegalAction(acts[k])
      ensures forall k, l :: 0 <= k < l < |acts| ==> acts[k].id < acts[l].id
      ensures forall c :: 0 <= c < n * n && IsLegalAction(Action(c, turn)) ==> Action(c, turn) in acts
    {
      acts := [];
      for pos := 0 to n * n
        invariant forall k :: 0 <= k < |acts| ==>
          0 <= acts[k].id < pos && acts[k].player == turn && legal[acts[k].id]
        invariant forall k, l :: 0 <= k < l < |acts| ==> acts[k].id < acts[l].id
        invariant forall c :: 0 <= c < pos && legal[c] ==> Action(c, turn) in acts
      {
        var action := Action(pos, turn);
        if !IsLegalAction(action) {
          continue;
        }
        acts := acts + [action];
      }
    }

    /** `isTerminal()`: someone has won, or no playable cell is empty. */
    function IsTerminal(): (r: bool)
      reads this
      requires Valid()
      ensures r <==> winner != None || forall c :: 0 <= c < n * n && IsOnBoardCell(n, c) ==> board[c] != None
    {
      EmptyUpToZero(n, board, n * n);
      winner != None || emptyCounter == 0
    }

    /** `getEvalScore(is_resign)`: the result from black's (player 1's) side: +1 when black
        has won, -1 when white has, 0 otherwise; on resignation the side to move loses. */
    function GetEvalScore(isResign: bool): (r: int)
      reads this
      ensures -1 <= r <= 1
      ensures !isResign ==> (r == 1 <==> winner == P1) && (r == -1 <==> winner == P2)
      ensures isResign ==> r != 0 && (r == -1 <==> turn == P1)
    {
      if isResign then (if turn == P1 then -1 else 1)
      else match winner
        case P1 => 1
        case P2 => -1
        case _ => 0
    }

    /** `getFeatures()`: four planes of N x N values, channel by channel and cell by cell. */
    method GetFeatures() returns (v: seq<int>)
      requires Valid()
      ensures |board| == n * n && |v| == 4 * |board|
      ensures forall q :: 0 <= q < |board| ==> v[q] == (if board[q] == turn then 1 else 0)
      ensures forall q :: |board| <= q < 2 * |board| ==>
        v[q] == (if board[q - |board|] == GetNextPlayer(turn, 2) then 1 else 0)
      ensures forall q :: 2 * |board| <= q < 3 * |board| ==> v[q] == (if turn == P1 then 1 else 0)
      ensures forall q :: 3 * |board| <= q < 4 * |board| ==> v[q] == (if turn == P2 then 1 else 0)
    {
      v := FeaturePlanes(board, turn);
    }

    /** `getActionFeatures(action)`: a one-hot plane marking the action's cell. */
    function GetActionFeatures(a: Action): (r: seq<int>)
      requires n > 0 && 0 <= a.id < n * n
      ensures |r| == n * n
      ensures forall c :: 0 <= c < n * n ==> (r[c] == 1 <==> c == a.id) && (r[c] == 0 <==> c != a.id)
    {
      seq(n * n, c => 0)[a.id := 1]
    }

    /** `getWinningStonesPosition()`: nothing while no one has won; once a side has won,
        every cell index of the grid, in order (the winning pattern itself is not traced). */
    method GetWinningStonesPosition() returns (stones: seq<int>)
      requires Valid()
      ensures winner == None ==> stones == []
      ensures IsSide(winner) ==> |stones| == n * n && forall k :: 0 <= k < |stones| ==> stones[k] == k
    {
      if winner == None {
        return [];
      }
      stones := [];
      for ii := 0 to n * n
        invariant IsSide(winner) ==> |stones| == ii && forall k :: 0 <= k < ii ==> stones[k] == k
        invariant !IsSide(winner) ==> stones == []
      {
        if winner == P1 || winner == P2 {
          stones := stones + [ii];
        }
      }
    }

    /** `find(x)` with path compression. */
    method Find(x: int) returns (r: int)
      requires UfReady() && 0 <= x < n * n
      modifies this`parents
      ensures UfReady()
      ensures Uf() == UnionFind.Compress(old(Uf()), x)
      ensures r == UnionFind.Root(old(Uf()), x)
      decreases UnionFind.MaxRank(ranks) - ranks[x]
    {
      ghost var f := Uf();
      if x != parents[x] {
        var p := Find(parents[x]);
        parents := parents[x := p];
        UnionFind.CompressValid(f, x);
      } else {
        UnionFind.CompressAtRoot(f, x);
      }
      r := parents[x];
    }

    /** `link(x, y)`: union by rank, OR of the masks, and the fork/bridge test. */
    method Link(x: int, y: int)
      requires UfReady() && 0 <= x < n * n && 0 <= y < n * n
      modifies this`winner, this`parents, this`ranks, this`patterns
      ensures UfReady()
      ensures Uf() == UnionFind.LinkForest(old(Uf()), x, y)
      ensures winner == if UnionFind.IsWinningMask(UnionFind.MergedMask(old(Uf()), x, y)) then turn else old(winner)
    {
      ghost var f := Uf();
      var px, py := FindBoth(x, y);
      var top := Unite(px, py);
      UnionFind.LinkValid(f, x, y);
      assert Uf() == UnionFind.LinkForest(f, x, y);
      assert UfReady();
      var win := ForkOrBridge(patterns[top]);
      if win {
        winner := turn;
      }
    }

    /** The two finds at the start of `link`. */
    method FindBoth(x: int, y: int) returns (px: int, py: int)
      requires UfReady() && 0 <= x < n * n && 0 <= y < n * n
      modifies this`parents
      ensures UfReady()
      ensures UnionFind.Valid(UnionFind.Compress(old(Uf()), x))
      ensures Uf() == UnionFind.Compress(UnionFind.Compress(old(Uf()), x), y)
      ensures px == UnionFind.Root(old(Uf()), x) && py == UnionFind.Root(old(Uf()), y)
    {
      ghost var f := Uf();
      px := Find(x);
      UnionFind.CompressRoots(f, x, y);
      py := Find(y);
    }

    /** The test at the end of `link`: the merged mask touches two corners or three edges. */
    static method ForkOrBridge(mask: int) returns (win: bool)
      requires 0 <= mask < UnionFind.MaskLimit
      ensures win == UnionFind.IsWinningMask(mask)
    {
      var corners := Popcount(And(mask, 0x3f));
      var edges := Popcount(mask / 64);
      UnionFind.MaskCounts(mask);
      win := corners >= 2 || edges >= 3;
    }

    /** The rest of `link` once both roots are found: the lower-ranked root goes below the
        other (`px` on top on a tie, with its rank raised), and the mask of the root on top
        takes the other's bits. Returns the root on top. */
    method Unite(px: int, py: int) returns (top: int)
      requires |parents| == |ranks| == |patterns|
      requires 0 <= px < |parents| && 0 <= py < |parents|
      requires patterns[px] >= 0 && patterns[py] >= 0
      modifies this`parents, this`ranks, this`patterns
      ensures Uf() == UnionFind.Unite(old(Uf()), px, py)
      ensures top == if old(ranks[px]) < old(ranks[py]) then py else px
    {
      var a := py;
      top := px;
      if ranks[px] < ranks[py] {
        top, a := py, px;
      } else if ranks[px] == ranks[py] {
        ranks := ranks[px := ranks[px] + 1];
      }
      parents := parents[a := top];
      patterns := patterns[top := Or(patterns[top], patterns[a])];
    }

    /** `hasRing(action)`: mark the playable cells of the action's group (finding the root
        of each, which compresses its path), then peel. */
    method HasRing(action: int) returns (ring: bool)
      requires UfReady() && 0 <= action < n * n
      modifies this`parents
      ensures UfReady()
      ensures Uf() == Swept(old(Uf()), n, action, n * n)
      ensures ring <==> exists k :: IsRingCore(n, k, GroupMarks(n, old(Uf()), action))
      ensures ring ==> Count(GroupMarks(n, old(Uf()), action)) >= 6
    {
      ghost var f0 := Uf();
      var group := Find(action);
      var connection, num := MarkGroup(f0, action, group);
      var remaining := Peel(n, connection, num);
      ring := remaining >= 6;
    }

    /** The marking loop of `hasRing`: every playable cell whose root is `group`. */
    method MarkGroup(ghost f0: UnionFind.Forest, action: int, group: int)
      returns (connection: seq<bool>, num: int)
      requires UfReady() && 0 <= action < n * n
      requires UnionFind.Valid(f0) && |f0.parents| == n * n && group == UnionFind.Root(f0, action)
      requires Uf() == UnionFind.Compress(f0, action)
      modifies this`parents
      ensures UfReady()
      ensures Uf() == Swept(f0, n, action, n * n)
      ensures connection == GroupMarks(n, f0, action) && num == Count(connection)
    {
      ghost var r0, p0 := ranks, patterns;
      MarkedBelowNone(n, f0, action);
      num := 0;
      connection := seq(n * n, c => false);
      for i := 0 to n * n
        invariant |parents| == n * n && ranks == r0 && patterns == p0
        invariant Uf() == Swept(f0, n, action, i)
        invariant connection == MarkedBelow(n, f0, action, i)
        invariant num == Count(connection)
      {
        connection, num := MarkCell(f0, action, group, i, connection, num);
      }
      MarkedBelowAll(n, f0, action);
    }

    /** One round of the marking loop: `find(i)` on a playable cell, marking it when its
        root is `group`. */
    method MarkCell(ghost f0: UnionFind.Forest, action: int, group: int, i: int, connection: seq<bool>, num: int)
      returns (next: seq<bool>, count: int)
      requires Shape() && 0 <= action < n * n && 0 <= i < n * n
      requires UnionFind.Valid(f0) && |f0.parents| == n * n && group == UnionFind.Root(f0, action)
      requires Uf() == Swept(f0, n, action, i)
      requires connection == MarkedBelow(n, f0, action, i) && num == Count(connection)
      modifies this`parents
      ensures |parents| == n * n
      ensures Uf() == Swept(f0, n, action, i + 1)
      ensures next == MarkedBelow(n, f0, action, i + 1) && count == Count(next)
    {
      MarkedBelowSnoc(n, f0, action, i);
      next, count := connection, num;
      if IsOnBoardCell(n, i) {
        SweptRoots(f0, n, action, i, i);
        var r := Find(i);
        if r == group {
          CountMark(connection, i);
          next, count := connection[i := true], num + 1;
        }
      }
    }

    /** `updateWinner(action)`: link the new stone with each neighbouring stone of the
        mover, then look for a ring through it. */
    method UpdateWinner(action: int) returns (w: Player)
      requires UfReady() && 0 <= action < n * n
      modifies this`winner, this`parents, this`ranks, this`patterns
      ensures UfReady()
      ensures Uf() == Swept(Linked(n, old(Uf()), board, action, turn), n, action, n * n)
      ensures w == winner
      ensures winner == if MoverWins(n, Uf(), board, action, turn) then turn else old(winner)
    {
      LinkStone(action);
      ghost var fl := Uf();
      var ring := HasRing(action);
      ghost var fs := Uf();
      SweptMoverWins(n, fl, board, action, turn);
      winner := if ring then turn else winner;
      w := winner;
      assert Uf() == fs;
    }

    /** The first half of `updateWinner`: link the new stone with each neighbouring stone
        of the mover, declaring the mover the winner if the merged group forms a fork or a
        bridge. */
    method LinkStone(action: int)
      requires UfReady() && 0 <= action < n * n
      modifies this`winner, this`parents, this`ranks, this`patterns
      ensures UfReady()
      ensures Uf() == Linked(n, old(Uf()), board, action, turn)
      ensures winner == if AnyOwned(NeighborsOf(n, action), board, turn, |NeighborsOf(n, action)|)
                           && GroupWins(Uf(), action) then turn else old(winner)
    {
      ghost var f0, w0 := Uf(), winner;
      var neighbors := GetNeighbors(n, action);
      for i := 0 to |neighbors|
        invariant |parents| == n * n && |ranks| == n * n && |patterns| == n * n
        invariant Uf() == LinkedUpTo(f0, action, neighbors, board, turn, i)
        invariant winner == WinnerUpTo(f0, action, neighbors, board, turn, i, w0)
      {
        LinkNeighbor(f0, action, neighbors, i, w0);
      }
      WinnerUpToMeaning(f0, action, neighbors, board, turn, |neighbors|, w0);
      assert Uf() == Linked(n, f0, board, action, turn);
    }

    /** One round of the linking loop: link with the i-th neighbour if it is the mover's. */
    method LinkNeighbor(ghost f0: UnionFind.Forest, action: int, neighbors: seq<int>, i: int, ghost w0: Player)
      requires Shape() && 0 <= action < n * n
      requires UnionFind.Valid(f0) && |f0.parents| == n * n
      requires InRange(neighbors, n * n) && 0 <= i < |neighbors|
      requires Uf() == LinkedUpTo(f0, action, neighbors, board, turn, i)
      requires winner == WinnerUpTo(f0, action, neighbors, board, turn, i, w0)
      modifies this`winner, this`parents, this`ranks, this`patterns
      ensures |parents| == n * n && |ranks| == n * n && |patterns| == n * n
      ensures Uf() == LinkedUpTo(f0, action, neighbors, board, turn, i + 1)
      ensures winner == WinnerUpTo(f0, action, neighbors, board, turn, i + 1, w0)
    {
      if board[neighbors[i]] == turn {
        Link(action, neighbors[i]);
      }
    }
  }
}
