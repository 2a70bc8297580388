/** The ring test of the Havannah engine: starting from the cells of one group, peel off
    every cell that cannot lie on a ring (fewer than two marked neighbours, or two that
    touch each other) until nothing more can be removed; a ring exists when at least six
    cells survive. */
module Ring {
  import opened Geometry

  /** Number of marked cells. */
  function Count(s: seq<bool>): (r: nat)
    ensures r <= |s|
  {
    if s == [] then 0 else Count(s[..|s| - 1]) + (if s[|s| - 1] then 1 else 0)
  }

  /** Every cell marked in `k` is marked in `c`. */
  predicate Sub(k: seq<bool>, c: seq<bool>) {
    |k| == |c| && forall i :: 0 <= i < |k| && k[i] ==> c[i]
  }

  predicate InRange(ns: seq<int>, size: int) {
    forall t :: 0 <= t < |ns| ==> 0 <= ns[t] < size
  }

  /** The cells of `ns` that are marked in `m`, in the order of `ns`. */
  function MarkedOnly(ns: seq<int>, m: seq<bool>): (r: seq<int>)
    requires InRange(ns, |m|)
    ensures |r| <= |ns|
    ensures forall v :: v in r <==> v in ns && 0 <= v < |m| && m[v]
  {
    if ns == [] then []
    else
      var last := ns[|ns| - 1];
      var rest := MarkedOnly(ns[..|ns| - 1], m);
      assert ns == ns[..|ns| - 1] + [last];
      rest + (if m[last] then [last] else [])
  }

  /** The marked neighbours of cell `c`, as `hasRing` collects them. */
  function MarkedNeighbors(n: int, m: seq<bool>, c: int): (r: seq<int>)
    requires n > 0 && |m| == n * n && 0 <= c < n * n
    ensures |r| <= 6 && InRange(r, n * n)
    ensures forall v :: v in r <==> v in NeighborsOf(n, c) && m[v]
  {
    var r := MarkedOnly(NeighborsOf(n, c), m);
    assert forall t :: 0 <= t < |r| ==> r[t] in r;
    r
  }

  /** A marked cell that the peeling keeps: at least three marked neighbours, or exactly
      two that are not neighbours of each other. */
  predicate Stable(n: int, m: seq<bool>, c: int)
    requires n > 0 && |m| == n * n && 0 <= c < n * n
  {
    var nb := MarkedNeighbors(n, m, c);
    |nb| >= 3 || (|nb| == 2 && nb[1] !in NeighborsOf(n, nb[0]))
  }

  /** A ring core of group `g`: at least six of g's cells, each of them stable within the core. */
  ghost predicate IsRingCore(n: int, k: seq<bool>, g: seq<bool>)
    requires n > 0
  {
    && |k| == n * n
    && Sub(k, g)
    && Count(k) >= 6
    && forall c :: 0 <= c < n * n && k[c] ==> Stable(n, k, c)
  }

  // ---------------------------------------------------------------- counting

  lemma {:induction false} CountSub(k: seq<bool>, c: seq<bool>)
    requires Sub(k, c)
    ensures Count(k) <= Count(c)
  {
    if k != [] {
      CountSub(k[..|k| - 1], c[..|c| - 1]);
    }
  }

  /** Unmarking one marked cell lowers the count by exactly one. */
  lemma {:induction false} CountClear(c: seq<bool>, t: int)
    requires 0 <= t < |c| && c[t]
    ensures Count(c[t := false]) == Count(c) - 1
  {
    var d := c[t := false];
    if t == |c| - 1 {
      assert d[..|d| - 1] == c[..|c| - 1];
    } else {
      assert d[..|d| - 1] == c[..|c| - 1][t := false];
      CountClear(c[..|c| - 1], t);
    }
  }

  /** A marking with no marked cell counts zero. */
  lemma {:induction false} CountNone(c: seq<bool>)
    requires forall i :: 0 <= i < |c| ==> !c[i]
    ensures Count(c) == 0
  {
    if c != [] {
      CountNone(c[..|c| - 1]);
    }
  }

  /** Marking one unmarked cell raises the count by exactly one. */
  lemma {:induction false} CountMark(c: seq<bool>, t: int)
    requires 0 <= t < |c| && !c[t]
    ensures Count(c[t := true]) == Count(c) + 1
  {
    var d := c[t := true];
    if t == |c| - 1 {
      assert d[..|d| - 1] == c[..|c| - 1];
    } else {
      assert d[..|d| - 1] == c[..|c| - 1][t := true];
      CountMark(c[..|c| - 1], t);
    }
  }

  /** A group of fewer than six cells holds no ring core, so the peeling reports no ring. */
  lemma RingNeedsSix(n: int, k: seq<bool>, g: seq<bool>)
    requires n > 0 && IsRingCore(n, k, g)
    ensures Count(g) >= 6
  {
    CountSub(k, g);
  }

  // ---------------------------------------------------------------- stability

  /** Filtering by a larger marking keeps at least as many cells, and the same ones when
      it keeps no more. */
  lemma {:induction false} FilterSub(ns: seq<int>, k: seq<bool>, c: seq<bool>)
    requires Sub(k, c) && InRange(ns, |k|)
    ensures |MarkedOnly(ns, k)| <= |MarkedOnly(ns, c)|
    ensures |MarkedOnly(ns, k)| == |MarkedOnly(ns, c)| ==> MarkedOnly(ns, k) == MarkedOnly(ns, c)
  {
    if ns != [] {
      FilterSub(ns[..|ns| - 1], k, c);
    }
  }

  /** Unmarking a cell that is not in `ns` does not change the filtered list. */
  lemma {:induction false} FilterUnaffected(ns: seq<int>, m: seq<bool>, t: int)
    requires InRange(ns, |m|) && 0 <= t < |m| && t !in ns
    ensures MarkedOnly(ns, m[t := false]) == MarkedOnly(ns, m)
  {
    if ns != [] {
      assert ns[|ns| - 1] in ns;
      FilterUnaffected(ns[..|ns| - 1], m, t);
    }
  }

  /** A cell stable within a core is stable within any larger marking. */
  lemma StableMono(n: int, k: seq<bool>, c: seq<bool>, x: int)
    requires n > 0 && |k| == n * n && Sub(k, c) && 0 <= x < n * n
    requires Stable(n, k, x)
    ensures Stable(n, c, x)
  {
    FilterSub(NeighborsOf(n, x), k, c);
  }

  /** Stability of `x` only depends on the marks of x's neighbours. */
  lemma StableUnaffected(n: int, m: seq<bool>, x: int, t: int)
    requires n > 0 && |m| == n * n && 0 <= x < n * n && 0 <= t < n * n
    requires t !in NeighborsOf(n, x)
    ensures Stable(n, m[t := false], x) == Stable(n, m, x)
  {
    FilterUnaffected(NeighborsOf(n, x), m, t);
  }

  /** Removing a cell that is not stable keeps every ring core inside the marking. */
  lemma RemovalKeepsCores(n: int, g: seq<bool>, m: seq<bool>, t: int)
    requires n > 0 && |m| == n * n && 0 <= t < n * n && !Stable(n, m, t)
    requires forall k :: IsRingCore(n, k, g) ==> Sub(k, m)
    ensures forall k :: IsRingCore(n, k, g) ==> Sub(k, m[t := false])
  {
    forall k | IsRingCore(n, k, g)
      ensures Sub(k, m[t := false])
    {
      if k[t] {
        StableMono(n, k, m, t);
      }
    }
  }

  /** The marking left when the peeling stops: all cells stable and at least six of them
      form a core; fewer than six leave none. */
  lemma CoreOfStableMarking(n: int, g: seq<bool>, m: seq<bool>)
    requires n > 0 && |m| == n * n && Sub(m, g)
    requires forall k :: IsRingCore(n, k, g) ==> Sub(k, m)
    requires Count(m) >= 6 ==> forall c :: 0 <= c < n * n && m[c] ==> Stable(n, m, c)
    ensures Count(m) >= 6 <==> exists k :: IsRingCore(n, k, g)
  {
    if Count(m) >= 6 {
      assert IsRingCore(n, m, g);
    } else if exists k :: IsRingCore(n, k, g) {
      var k :| IsRingCore(n, k, g);
      CountSub(k, m);
    }
  }

  // ---------------------------------------------------------------- the peeling loop

  /** Keep the marked cells of `ns`, in order. */
  method FilterMarked(ns: seq<int>, m: seq<bool>) returns (r: seq<int>)
    requires InRange(ns, |m|)
    ensures r == MarkedOnly(ns, m)
  {
    r := [];
    for i := 0 to |ns|
      invariant r == MarkedOnly(ns[..i], m)
    {
      assert ns[..i + 1][..i] == ns[..i];
      if m[ns[i]] {
        r := r + [ns[i]];
      }
    }
    assert ns[..|ns|] == ns;
  }

  /** The stability test of `hasRing` for one cell: which marked neighbours it has, and
      whether it must be kept. */
  method CheckStable(n: int, m: seq<bool>, c: int) returns (stable: bool, nb: seq<int>)
    requires n > 0 && |m| == n * n && 0 <= c < n * n
    ensures nb == MarkedNeighbors(n, m, c)
    ensures stable == Stable(n, m, c)
  {
    var ns := GetNeighbors(n, c);
    nb := FilterMarked(ns, m);
    if |nb| >= 3 {
      return true, nb;
    }
    if |nb| != 2 {
      return false, nb;
    }
    assert nb[0] in nb;
    var around := GetNeighbors(n, nb[0]);
    var apart := true;
    for j := 0 to |around|
      invariant apart <==> nb[1] !in around[..j]
    {
      assert around[..j + 1] == around[..j] + [around[j]];
      if around[j] == nb[1] {
        apart := false;
      }
    }
    assert around[..|around|] == around;
    stable := apart;
  }

  /** Append to the worklist every cell of `cells` not already on it. */
  method Enqueue(n: int, queue: seq<int>, inList: seq<bool>, cells: seq<int>)
    returns (queue': seq<int>, inList': seq<bool>)
    requires |inList| == n * n && InRange(queue, n * n) && InRange(cells, n * n)
    requires forall s, t :: 0 <= s < t < |queue| ==> queue[s] != queue[t]
    requires forall c :: 0 <= c < n * n ==> (inList[c] <==> c in queue)
    ensures |inList'| == n * n && InRange(queue', n * n)
    ensures |queue'| >= |queue| && queue'[..|queue|] == queue
    ensures forall t :: |queue| <= t < |queue'| ==> queue'[t] in cells
    ensures forall s, t :: 0 <= s < t < |queue'| ==> queue'[s] != queue'[t]
    ensures forall c :: 0 <= c < n * n ==> (inList'[c] <==> c in queue')
    ensures forall c :: 0 <= c < n * n ==> (inList'[c] <==> inList[c] || c in cells)
  {
    queue', inList' := queue, inList;
    for j := 0 to |cells|
      invariant |inList'| == n * n && InRange(queue', n * n)
      invariant |queue'| >= |queue| && queue'[..|queue|] == queue
      invariant forall t :: |queue| <= t < |queue'| ==> queue'[t] in cells[..j]
      invariant forall s, t :: 0 <= s < t < |queue'| ==> queue'[s] != queue'[t]
      invariant forall c :: 0 <= c < n * n ==> (inList'[c] <==> c in queue')
      invariant forall c :: 0 <= c < n * n ==> (inList'[c] <==> inList[c] || c in cells[..j])
    {
      assert cells[..j + 1] == cells[..j] + [cells[j]];
      var v := cells[j];
      if !inList'[v] {
        queue' := queue' + [v];
        inList' := inList'[v := true];
      }
    }
    assert cells[..|cells|] == cells;
  }

  /** The worklist of the peeling: distinct marked cells, with `inList` telling which. */
  predicate WorkList(n: int, conn: seq<bool>, queue: seq<int>, inList: seq<bool>) {
    && |conn| == n * n && |inList| == n * n && InRange(queue, n * n)
    && (forall t :: 0 <= t < |queue| ==> conn[queue[t]])
    && (forall s, t :: 0 <= s < t < |queue| ==> queue[s] != queue[t])
    && (forall c :: 0 <= c < n * n ==> (inList[c] <==> c in queue))
  }

  /** What the peeling keeps while it runs: the marking only shrinks, `remaining` counts
      it, every ring core of the group stays inside it, and each marked cell off the
      worklist is stable. */
  ghost predicate PeelInv(n: int, g: seq<bool>, conn: seq<bool>, remaining: int, queue: seq<int>, inList: seq<bool>)
    requires n > 0
  {
    && WorkList(n, conn, queue, inList)
    && Sub(conn, g) && remaining == Count(conn)
    && (forall k :: IsRingCore(n, k, g) ==> Sub(k, conn))
    && (forall c :: 0 <= c < n * n && conn[c] && !inList[c] ==> Stable(n, conn, c))
  }

  /** A marked cell that the first pass lists: fewer than three marked neighbours. */
  predicate Weak(n: int, conn: seq<bool>, c: int)
    requires n > 0 && |conn| == n * n && 0 <= c < n * n
  {
    conn[c] && |MarkedNeighbors(n, conn, c)| < 3
  }

  /** The weak cells below `i`, in increasing order. */
  function WeakBelow(n: int, conn: seq<bool>, i: int): (r: seq<int>)
    requires n > 0 && |conn| == n * n && 0 <= i <= n * n
    decreases i
  {
    if i == 0 then []
    else WeakBelow(n, conn, i - 1) + (if Weak(n, conn, i - 1) then [i - 1] else [])
  }

  /** Which cells below `i` are weak. */
  ghost function WeakFlags(n: int, conn: seq<bool>, i: int): (r: seq<bool>)
    requires n > 0 && |conn| == n * n && 0 <= i <= n * n
    ensures |r| == n * n
  {
    seq(n * n, c requires 0 <= c < n * n => c < i && Weak(n, conn, c))
  }

  /** The weak cells below `i` are listed once each, in increasing order. */
  lemma {:induction false} WeakBelowListed(n: int, conn: seq<bool>, i: int)
    requires n > 0 && |conn| == n * n && 0 <= i <= n * n
    ensures forall t :: 0 <= t < |WeakBelow(n, conn, i)| ==>
      0 <= WeakBelow(n, conn, i)[t] < i && Weak(n, conn, WeakBelow(n, conn, i)[t])
    ensures forall s, t :: 0 <= s < t < |WeakBelow(n, conn, i)| ==>
      WeakBelow(n, conn, i)[s] < WeakBelow(n, conn, i)[t]
    ensures forall c :: 0 <= c < n * n ==> (c in WeakBelow(n, conn, i) <==> c < i && Weak(n, conn, c))
    decreases i
  {
    if i > 0 {
      var w, r := WeakBelow(n, conn, i - 1), WeakBelow(n, conn, i);
      WeakBelowListed(n, conn, i - 1);
      if Weak(n, conn, i - 1) {
        assert r == w + [i - 1];
        forall t | 0 <= t < |r|
          ensures 0 <= r[t] < i && Weak(n, conn, r[t])
        {
          if t < |w| {
            assert r[t] == w[t];
          }
        }
        forall s, t | 0 <= s < t < |r|
          ensures r[s] < r[t]
        {
          assert r[s] == w[s];
          if t < |w| {
            assert r[t] == w[t];
          }
        }
        forall c | 0 <= c < n * n
          ensures c in r <==> c < i && Weak(n, conn, c)
        {
          assert c in r <==> c in w || c == i - 1;
        }
      } else {
        assert r == w;
      }
    }
  }

  /** The first worklist of `hasRing`: every marked cell with fewer than three marked
      neighbours, in increasing order. */
  method InitialQueue(n: int, conn: seq<bool>) returns (queue: seq<int>, inList: seq<bool>)
    requires n > 0 && |conn| == n * n
    ensures queue == WeakBelow(n, conn, n * n)
    ensures inList == WeakFlags(n, conn, n * n)
  {
    queue := [];
    inList := seq(n * n, c => false);
    for i := 0 to n * n
      invariant queue == WeakBelow(n, conn, i)
      invariant inList == WeakFlags(n, conn, i)
    {
      if conn[i] {
        var ns := GetNeighbors(n, i);
        var nb := FilterMarked(ns, conn);
        if |nb| < 3 {
          queue := queue + [i];
          inList := inList[i := true];
        }
      }
    }
  }

  /** The first worklist is a worklist; the marked cells it leaves out are stable. */
  lemma InitialWorkList(n: int, conn: seq<bool>)
    requires n > 0 && |conn| == n * n
    ensures WorkList(n, conn, WeakBelow(n, conn, n * n), WeakFlags(n, conn, n * n))
    ensures forall c :: 0 <= c < n * n && conn[c] && !WeakFlags(n, conn, n * n)[c] ==> Stable(n, conn, c)
  {
    WeakBelowListed(n, conn, n * n);
  }

  /** Taking the front cell off the worklist keeps the worklist well formed. */
  lemma PopKeepsWorkList(n: int, conn: seq<bool>, queue: seq<int>, inList: seq<bool>)
    requires WorkList(n, conn, queue, inList) && queue != []
    ensures queue[0] !in queue[1..]
    ensures WorkList(n, conn, queue[1..], inList[queue[0] := false])
  {
  }

  /** Unmarking `t` keeps a worklist that does not hold `t` well formed. */
  lemma UnmarkKeepsWorkList(n: int, conn: seq<bool>, queue: seq<int>, inList: seq<bool>, t: int)
    requires WorkList(n, conn, queue, inList) && 0 <= t < n * n && !inList[t]
    ensures WorkList(n, conn[t := false], queue, inList)
  {
  }

  /** After unmarking `t` and listing its marked neighbours, every marked cell off the
      worklist is still stable. */
  lemma UnmarkKeepsStable(n: int, m: seq<bool>, t: int, inList: seq<bool>, inList': seq<bool>)
    requires n > 0 && |m| == n * n && |inList| == n * n && |inList'| == n * n && 0 <= t < n * n
    requires forall c :: 0 <= c < n * n && m[c] ==> IsOnBoardCell(n, c)
    requires forall c :: 0 <= c < n * n && c != t && m[c] && !inList[c] ==> Stable(n, m, c)
    requires forall c :: 0 <= c < n * n ==> (inList'[c] <==> inList[c] || c in MarkedNeighbors(n, m, t))
    ensures forall c :: 0 <= c < n * n && m[t := false][c] && !inList'[c] ==> Stable(n, m[t := false], c)
  {
    forall c | 0 <= c < n * n && m[t := false][c] && !inList'[c]
      ensures Stable(n, m[t := false], c)
    {
      if t in NeighborsOf(n, c) {
        NeighborsSymmetric(n, c, t);
      }
      StableUnaffected(n, m, c, t);
    }
  }

  /** One round of the peeling loop: take the front cell off the worklist; when it is not
      stable, unmark it and put its marked neighbours back on the worklist. */
  method PeelStep(n: int, ghost g: seq<bool>, conn: seq<bool>, remaining: int, queue: seq<int>, inList: seq<bool>)
    returns (conn': seq<bool>, remaining': int, queue': seq<int>, inList': seq<bool>)
    requires n > 0 && queue != [] && |g| == n * n
    requires forall c :: 0 <= c < n * n && g[c] ==> IsOnBoardCell(n, c)
    requires PeelInv(n, g, conn, remaining, queue, inList)
    ensures PeelInv(n, g, conn', remaining', queue', inList')
    ensures remaining' < remaining || (remaining' == remaining && |queue'| < |queue|)
  {
    var target := queue[0];
    PopKeepsWorkList(n, conn, queue, inList);
    queue' := queue[1..];
    inList' := inList[target := false];
    conn', remaining' := conn, remaining;
    var stable, nb := CheckStable(n, conn, target);
    if !stable {
      RemovalKeepsCores(n, g, conn, target);
      NeighborsMeaning(n, target, target);
      CountClear(conn, target);
      UnmarkKeepsWorkList(n, conn, queue', inList', target);
      var popped := inList';
      remaining' := remaining - 1;
      conn' := conn[target := false];
      queue', inList' := Enqueue(n, queue', inList', nb);
      UnmarkKeepsStable(n, conn, target, popped, inList');
    }
  }

  /** The peeling of `hasRing` on the marking `connection` of one group, whose `num`
      cells are all playable. Returns the number of cells left. */
  method Peel(n: int, connection: seq<bool>, num: int) returns (remaining: int)
    requires n > 0 && |connection| == n * n && num == Count(connection)
    requires forall c :: 0 <= c < n * n && connection[c] ==> IsOnBoardCell(n, c)
    ensures 0 <= remaining <= num
    ensures remaining >= 6 <==> exists k :: IsRingCore(n, k, connection)
  {
    var conn := connection;
    remaining := num;
    var queue, inList := InitialQueue(n, conn);
    InitialWorkList(n, conn);
    while queue != [] && remaining >= 6
      invariant PeelInv(n, connection, conn, remaining, queue, inList)
      decreases remaining, |queue|
    {
      conn, remaining, queue, inList := PeelStep(n, connection, conn, remaining, queue, inList);
    }
    CountSub(conn, connection);
    CoreOfStableMarking(n, connection, conn);
  }
}
