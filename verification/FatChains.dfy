/** Cluster chains over the decoded allocation table (kernel/fat12.c, free_chain, fat12_alloc_cluster
    and the allocation loop of fat12_write). */
module FatChains {
  const END_OF_CHAIN := 0xFFF

  /** The loop guard the driver uses everywhere: a number that denotes a cluster. */
  predicate InRange(c: nat) { 2 <= c <= 0xFEF }

  /** Every link leads to an entry of the table. */
  predicate LinksBounded(f: seq<nat>)
  {
    && |f| <= 0xFF0
    && forall k :: 0 <= k < |f| && InRange(f[k]) ==> f[k] < |f|
  }

  predicate Linkable(f: seq<nat>, c: nat) { InRange(c) ==> c < |f| }

  // ---------------------------------------------------------------- chains

  /** s is the list of clusters met when links are followed from c; the walk ends and meets no free entry. */
  ghost predicate IsChain(f: seq<nat>, c: nat, s: seq<nat>)
    decreases |s|
  {
    if s == [] then !InRange(c)
    else InRange(c) && c < |f| && s[0] == c && f[c] != 0 && IsChain(f, f[c], s[1..])
  }

  ghost predicate Sound(f: seq<nat>, c: nat)
  {
    exists s :: IsChain(f, c, s)
  }

  ghost function ChainOf(f: seq<nat>, c: nat): (s: seq<nat>)
    requires Sound(f, c)
    ensures IsChain(f, c, s)
  {
    var s :| IsChain(f, c, s);
    s
  }

  lemma {:induction false} ChainUnique(f: seq<nat>, c: nat, s: seq<nat>, t: seq<nat>)
    requires IsChain(f, c, s) && IsChain(f, c, t)
    ensures s == t
    decreases |s|
  {
    if s != [] {
      ChainUnique(f, f[c], s[1..], t[1..]);
    }
  }

  lemma {:induction false} ChainSuffix(f: seq<nat>, c: nat, s: seq<nat>, i: nat)
    requires IsChain(f, c, s) && i < |s|
    ensures IsChain(f, s[i], s[i..])
    decreases |s|
  {
    if i > 0 {
      ChainSuffix(f, f[c], s[1..], i - 1);
      assert s[1..][i - 1..] == s[i..];
    }
  }

  /** A walk that ends never meets a cluster twice. */
  lemma ChainAcyclic(f: seq<nat>, c: nat, s: seq<nat>, i: nat, j: nat)
    requires IsChain(f, c, s) && i < |s| && j < |s| && s[i] == s[j]
    ensures i == j
  {
    ChainSuffix(f, c, s, i);
    ChainSuffix(f, c, s, j);
    ChainUnique(f, s[i], s[i..], s[j..]);
  }

  lemma {:induction false} ChainMembers(f: seq<nat>, c: nat, s: seq<nat>)
    requires IsChain(f, c, s)
    ensures forall k :: k in s ==> InRange(k) && k < |f| && f[k] != 0
    decreases |s|
  {
    if s != [] {
      ChainMembers(f, f[c], s[1..]);
      assert s == [s[0]] + s[1..];
    }
  }

  lemma {:induction false} ChainLocal(f: seq<nat>, g: seq<nat>, c: nat, s: seq<nat>)
    requires IsChain(f, c, s) && |g| == |f|
    requires forall k :: k in s && k < |f| ==> g[k] == f[k]
    ensures IsChain(g, c, s)
    decreases |s|
  {
    if s != [] {
      ChainLocal(f, g, f[c], s[1..]);
    }
  }

  /** A chain is decided by the entries of its own clusters. */
  lemma ChainOfLocal(f: seq<nat>, g: seq<nat>, c: nat)
    requires Sound(f, c) && |g| == |f|
    requires forall k :: k in ChainOf(f, c) && k < |f| ==> g[k] == f[k]
    ensures Sound(g, c) && ChainOf(g, c) == ChainOf(f, c)
  {
    ChainLocal(f, g, c, ChainOf(f, c));
    ChainUnique(g, c, ChainOf(f, c), ChainOf(g, c));
  }

  // ---------------------------------------------------------------- freeing

  /** Number of entries in use. */
  function NonZeros(f: seq<nat>): (n: nat)
    ensures n <= |f|
  {
    if f == [] then 0 else (if f[0] == 0 then 0 else 1) + NonZeros(f[1..])
  }

  lemma {:induction false} NonZerosAfterClear(f: seq<nat>, c: nat)
    requires c < |f| && f[c] != 0
    ensures NonZeros(f[c := 0]) == NonZeros(f) - 1
  {
    if c == 0 {
      assert f[c := 0][1..] == f[1..];
    } else {
      NonZerosAfterClear(f[1..], c - 1);
      assert f[c := 0][1..] == f[1..][c - 1 := 0];
    }
  }

  /** free_chain. It ends on every table whose links stay in range, cyclic ones included: each step clears
      an entry in use or meets a free one and stops. */
  function FreeChain(f: seq<nat>, c: nat): (g: seq<nat>)
    requires LinksBounded(f) && Linkable(f, c)
    ensures |g| == |f| && LinksBounded(g)
    decreases NonZeros(f), if InRange(c) then 1 else 0
  {
    if InRange(c) then
      var g := f[c := 0];
      if f[c] != 0 then
        NonZerosAfterClear(f, c);
        FreeChain(g, f[c])
      else
        assert g == f;
        FreeChain(g, f[c])
    else f
  }

  /** One round of the loop, and its end. */
  lemma FreeChainStep(f: seq<nat>, c: nat)
    requires LinksBounded(f) && Linkable(f, c)
    ensures if InRange(c) then FreeChain(f, c) == FreeChain(f[c := 0], f[c]) else FreeChain(f, c) == f
    ensures InRange(c) ==> if f[c] == 0 then f[c := 0] == f else NonZeros(f[c := 0]) < NonZeros(f)
  {
    if InRange(c) && f[c] != 0 {
      NonZerosAfterClear(f, c);
    }
  }

  /** k is met within n links from c. */
  ghost predicate ReachesIn(f: seq<nat>, c: nat, k: nat, n: nat)
    decreases n
  {
    InRange(c) && c < |f| && (c == k || (n > 0 && ReachesIn(f, f[c], k, n - 1)))
  }

  ghost predicate Reachable(f: seq<nat>, c: nat, k: nat)
  {
    exists n: nat :: ReachesIn(f, c, k, n)
  }

  /** Clearing c only cuts paths through c; what lay beyond is still reached from c's old link. */
  lemma {:induction false} ReachAfterCut(f: seq<nat>, c: nat, d: nat, k: nat, n: nat)
    requires InRange(c) && c < |f| && k != c
    requires ReachesIn(f, d, k, n)
    ensures ReachesIn(f[c := 0], d, k, n) || Reachable(f[c := 0], f[c], k)
    decreases n
  {
    if d != k {
      ReachAfterCut(f, c, f[d], k, n - 1);
    }
  }

  lemma {:induction false} ReachBeforeCut(f: seq<nat>, c: nat, d: nat, k: nat, n: nat)
    requires InRange(c) && c < |f|
    requires ReachesIn(f[c := 0], d, k, n)
    ensures ReachesIn(f, d, k, n)
    decreases n
  {
    if d != k {
      ReachBeforeCut(f, c, f[c := 0][d], k, n - 1);
    }
  }

  lemma ReachStep(f: seq<nat>, c: nat, k: nat)
    requires InRange(c) && c < |f|
    ensures Reachable(f, c, k) <==> k == c || Reachable(f[c := 0], f[c], k)
  {
    if k == c {
      assert ReachesIn(f, c, k, 0);
    } else if Reachable(f, c, k) {
      var n: nat :| ReachesIn(f, c, k, n);
      ReachAfterCut(f, c, f[c], k, n - 1);
    } else if Reachable(f[c := 0], f[c], k) {
      var n: nat :| ReachesIn(f[c := 0], f[c], k, n);
      ReachBeforeCut(f, c, f[c], k, n);
      assert ReachesIn(f, c, k, n + 1);
    }
  }

  /** free_chain clears exactly the clusters reachable from its argument, on any table whose links stay
      in range. */
  lemma {:induction false} FreeChainClearsReachable(f: seq<nat>, c: nat, k: nat)
    requires LinksBounded(f) && Linkable(f, c) && k < |f|
    ensures FreeChain(f, c)[k] == if Reachable(f, c, k) then 0 else f[k]
    decreases NonZeros(f), if InRange(c) then 1 else 0
  {
    if InRange(c) {
      ReachStep(f, c, k);
      if f[c] != 0 {
        NonZerosAfterClear(f, c);
      } else {
        assert f[c := 0] == f;
      }
      FreeChainClearsReachable(f[c := 0], f[c], k);
    }
  }

  /** On a sound chain that is the chain itself. */
  lemma {:induction false} FreeChainOfChain(f: seq<nat>, c: nat, s: seq<nat>)
    requires LinksBounded(f) && IsChain(f, c, s)
    ensures Linkable(f, c)
    ensures forall k :: 0 <= k < |f| ==> FreeChain(f, c)[k] == if k in s then 0 else f[k]
    decreases |s|
  {
    if s != [] {
      var g := f[c := 0];
      ClearedTail(f, c, s);
      FreeChainOfChain(g, f[c], s[1..]);
      assert s == [c] + s[1..];
    }
  }

  // ---------------------------------------------------------------- allocating

  /** fat12_alloc_cluster from position c on: the lowest free cluster, or 0. */
  function FirstFree(f: seq<nat>, c: nat): (r: nat)
    requires 2 <= c
    ensures r == 0 || (c <= r < |f| && f[r] == 0)
    ensures forall k :: c <= k < |f| && (r == 0 || k < r) ==> f[k] != 0
    decreases |f| - c
  {
    if c >= |f| then 0
    else if f[c] == 0 then c
    else FirstFree(f, c + 1)
  }

  /** The number of clusters still free. */
  function FreeClusters(f: seq<nat>): nat
  {
    if |f| <= 2 then 0 else |f| - 2 - NonZeros(f[2..])
  }

  datatype Allocation = Allocation(fat: seq<nat>, first: nat, ok: bool)

  /** The table after one round of the allocation loop. */
  function AddCluster(f: seq<nat>, prev: nat, nc: nat): seq<nat>
    requires nc < |f| && prev < |f|
  {
    if prev != 0 then f[nc := END_OF_CHAIN][prev := nc] else f[nc := END_OF_CHAIN]
  }

  /** The loop that builds a chain of n more clusters behind prev, undoing everything when the disk is full. */
  function AllocChain(f: seq<nat>, n: nat, first: nat, prev: nat): (a: Allocation)
    requires LinksBounded(f) && first < |f| && prev < |f|
    ensures |a.fat| == |f| && LinksBounded(a.fat) && a.first < |f|
    decreases n
  {
    if n == 0 then Allocation(f, first, true)
    else
      var nc := FirstFree(f, 2);
      if nc == 0 then Allocation(if first != 0 then FreeChain(f, first) else f, first, false)
      else
        AllocChain(AddCluster(f, prev, nc), n - 1, if prev == 0 then nc else first, nc)
  }

  /** From table f to table g the lowest free clusters were taken and linked upwards, behind prev if there was one: below
      a taken cluster none is free any more. */
  ghost predicate LowestTaken(f: seq<nat>, g: seq<nat>, prev: nat)
    requires |g| == |f| && prev < |f|
  {
    && (forall c, d :: 2 <= d < c < |f| && f[c] == 0 && g[c] != 0 ==> g[d] != 0)
    && (forall c :: 0 <= c < |f| && f[c] == 0 && g[c] != 0 ==> c < g[c])
    && (forall c :: 0 <= c < |f| && f[c] != 0 && c != prev ==> g[c] == f[c])
    && (prev != 0 && prev < f[prev] ==> prev < g[prev])
  }

  lemma LowestStep(f: seq<nat>, g: seq<nat>, prev: nat, nc: nat)
    requires |g| == |f| <= 0xFF0 && prev < nc < |f| && 2 <= nc && f[nc] == 0
    requires forall d :: 2 <= d < nc ==> f[d] != 0
    requires LowestTaken(AddCluster(f, prev, nc), g, nc)
    ensures LowestTaken(f, g, prev)
  {
    var h := AddCluster(f, prev, nc);
    assert h[nc] == END_OF_CHAIN && forall c :: 0 <= c < |f| && c != nc && c != prev ==> h[c] == f[c];
    forall c, d | 2 <= d < c < |f| && f[c] == 0 && g[c] != 0 ensures g[d] != 0 {
      assert d != nc && h[d] != 0 ==> g[d] == h[d];
      assert c != nc ==> h[c] == 0 || c == prev;
    }
  }

  /** The allocation loop takes the lowest free clusters in ascending order. */
  lemma {:induction false} AllocTakesLowest(f: seq<nat>, n: nat, first: nat, prev: nat)
    requires LinksBounded(f) && first < |f| && prev < |f|
    requires AllocChain(f, n, first, prev).ok
    requires forall d :: 2 <= d <= prev ==> f[d] != 0
    ensures LowestTaken(f, AllocChain(f, n, first, prev).fat, prev)
    decreases n
  {
    if n > 0 {
      hide LowestTaken;
      var nc := FirstFree(f, 2);
      assert prev < nc;
      AllocTakesLowest(AddCluster(f, prev, nc), n - 1, if prev == 0 then nc else first, nc);
      LowestStep(f, AllocChain(f, n, first, prev).fat, prev, nc);
    }
  }

  /** Link values from 0xFF0 on, the driver's own end mark among them, and those below 2 end a chain; no other does. */
  lemma EndMarks(f: seq<nat>, c: nat)
    ensures IsChain(f, c, []) <==> c < 2 || c >= 0xFF0
  {
  }

  function Last(s: seq<nat>): nat
    requires s != []
  {
    s[|s| - 1]
  }

  /** s is a finished chain laid over entries that were free in f0; everything else is as in f0. */
  ghost predicate LaidOver(f0: seq<nat>, f: seq<nat>, first: nat, s: seq<nat>)
  {
    && |f| == |f0|
    && IsChain(f, first, s)
    && (forall k :: k in s ==> k < |f| && f0[k] == 0)
    && (forall k :: 0 <= k < |f| && k !in s ==> f[k] == f0[k])
    && (s != [] ==> Last(s) < |f| && f[Last(s)] == 0xFFF)
  }

  lemma {:induction false} ChainAppend(f: seq<nat>, c: nat, s: seq<nat>, nc: nat)
    requires IsChain(f, c, s) && s != [] && Last(s) < |f| && f[Last(s)] == END_OF_CHAIN
    requires InRange(nc) && nc < |f| && f[nc] == 0 && nc !in s
    ensures IsChain(f[nc := END_OF_CHAIN][Last(s) := nc], c, s + [nc])
    decreases |s|
  {
    var g := f[nc := END_OF_CHAIN][Last(s) := nc];
    if |s| == 1 {
      assert (s + [nc])[1..] == [nc];
      assert IsChain(g, nc, [nc]);
    } else {
      assert Last(s[1..]) == Last(s);
      ChainAppend(f, f[c], s[1..], nc);
      assert (s + [nc])[1..] == s[1..] + [nc];
    }
  }

  lemma {:induction false} LaidOverUndone(f0: seq<nat>, f: seq<nat>, first: nat, s: seq<nat>)
    requires LinksBounded(f) && LaidOver(f0, f, first, s)
    ensures Linkable(f, first) && FreeChain(f, first) == f0
  {
    FreeChainOfChain(f, first, s);
  }

  /** One more cluster: the laid chain grows by the lowest free one. */
  lemma LaidOverGrows(f0: seq<nat>, f: seq<nat>, first: nat, s: seq<nat>, nc: nat)
    requires LinksBounded(f) && LaidOver(f0, f, first, s)
    requires InRange(nc) && nc < |f| && f[nc] == 0
    requires s == [] ==> first == 0
    ensures s != [] ==> LaidOver(f0, f[nc := END_OF_CHAIN][Last(s) := nc], first, s + [nc])
    ensures s == [] ==> LaidOver(f0, f[nc := END_OF_CHAIN], nc, [nc])
  {
    ChainMembers(f, first, s);
    if s == [] {
      assert IsChain(f[nc := END_OF_CHAIN], nc, [nc]);
    } else {
      ChainAppend(f, first, s, nc);
      forall k | 0 <= k < |f| && k !in s + [nc]
        ensures f[nc := END_OF_CHAIN][Last(s) := nc][k] == f0[k]
      {
        assert nc in s + [nc] && (s + [nc])[|s| - 1] == Last(s);
        assert k !in s;
      }
      forall k | k in s + [nc]
        ensures k < |f| && f0[k] == 0
      {
        assert k in s || k == nc;
      }
      assert Last(s + [nc]) == nc;
    }
  }

  lemma {:induction false} FreeClustersAfterUse(f: seq<nat>, nc: nat, v: nat)
    requires 2 <= nc < |f| && f[nc] == 0 && v != 0
    ensures FreeClusters(f[nc := v]) == FreeClusters(f) - 1
  {
    var g := f[nc := v];
    assert g[2..][nc - 2 := 0] == f[2..];
    NonZerosAfterClear(g[2..], nc - 2);
  }

  /** Freeing a chain gives back as many clusters as it has. */
  lemma {:induction false} FreeClustersAfterFree(f: seq<nat>, c: nat, s: seq<nat>)
    requires LinksBounded(f) && IsChain(f, c, s)
    ensures Linkable(f, c) && FreeClusters(FreeChain(f, c)) == FreeClusters(f) + |s|
    decreases |s|
  {
    if s != [] {
      var g := f[c := 0];
      ClearedTail(f, c, s);
      assert g[2..] == f[2..][c - 2 := 0];
      NonZerosAfterClear(f[2..], c - 2);
      NonZerosAfterClear(f, c);
      FreeClustersAfterFree(g, f[c], s[1..]);
    }
  }

  /** Clearing the head of a chain leaves the rest of it as a chain. */
  lemma ClearedTail(f: seq<nat>, c: nat, s: seq<nat>)
    requires IsChain(f, c, s) && s != []
    ensures IsChain(f[c := 0], f[c], s[1..])
  {
    forall i | 0 <= i < |s[1..]|
      ensures s[1..][i] != c
    {
      if s[i + 1] == c {
        ChainAcyclic(f, c, s, 0, i + 1);
      }
    }
    ChainLocal(f, f[c := 0], f[c], s[1..]);
  }

  lemma {:induction false} NonZerosSame(f: seq<nat>, c: nat, v: nat)
    requires c < |f| && f[c] != 0 && v != 0
    ensures NonZeros(f[c := v]) == NonZeros(f)
  {
    NonZerosAfterClear(f, c);
    NonZerosAfterClear(f[c := v], c);
    assert f[c := v][c := 0] == f[c := 0];
  }

  lemma {:induction false} AllNonZero(f: seq<nat>)
    requires forall k :: 0 <= k < |f| ==> f[k] != 0
    ensures NonZeros(f) == |f|
  {
    if f != [] {
      AllNonZero(f[1..]);
    }
  }

  /** The chain position that holds the end mark while a chain is being built; 0 before it has begun. */
  function Tail(s: seq<nat>): nat { if s == [] then 0 else Last(s) }

  lemma LaidOverBounds(f0: seq<nat>, f: seq<nat>, first: nat, s: seq<nat>)
    requires LaidOver(f0, f, first, s) && 2 <= |f|
    requires s == [] ==> first == 0
    ensures first < |f| && Tail(s) < |f|
  {
    ChainMembers(f, first, s);
  }

  lemma AddClusterLays(f0: seq<nat>, f: seq<nat>, first: nat, s: seq<nat>, nc: nat)
    requires LinksBounded(f) && LaidOver(f0, f, first, s)
    requires s == [] ==> first == 0
    requires 2 <= nc < |f| && f[nc] == 0
    ensures Tail(s) < |f| && (s != [] ==> Tail(s) != 0)
    ensures var g := AddCluster(f, Tail(s), nc);
            && LinksBounded(g)
            && LaidOver(f0, g, if s == [] then nc else first, s + [nc])
            && FreeClusters(g) == FreeClusters(f) - 1
  {
    ChainMembers(f, first, s);
    LaidOverGrows(f0, f, first, s, nc);
    FreeClustersAfterUse(f, nc, END_OF_CHAIN);
    if s != [] {
      var prev, g := Last(s), f[nc := END_OF_CHAIN];
      assert prev in s;
      assert g[2..][prev - 2 := nc] == g[prev := nc][2..];
      NonZerosSame(g[2..], prev - 2, nc);
    } else {
      assert s + [nc] == [nc];
    }
  }

  /** What the allocation loop promises about its outcome. */
  ghost predicate Allocated(f0: seq<nat>, a: Allocation, free: nat, n: nat, t: seq<nat>, size: nat)
  {
    && (a.ok <==> n <= free)
    && (a.ok ==> LaidOver(f0, a.fat, a.first, t) && |t| == size)
    && (!a.ok ==> a.fat == f0)
  }

  lemma DiskFull(f0: seq<nat>, f: seq<nat>, n: nat, first: nat, s: seq<nat>)
    requires LinksBounded(f) && LaidOver(f0, f, first, s) && 2 <= |f|
    requires s == [] ==> first == 0
    requires n > 0 && FirstFree(f, 2) == 0
    ensures first < |f| && Tail(s) < |f|
    ensures Allocated(f0, AllocChain(f, n, first, Tail(s)), FreeClusters(f), n, s, |s| + n)
  {
    ChainMembers(f, first, s);
    AllNonZero(f[2..]);
    LaidOverUndone(f0, f, first, s);
  }

  lemma AllocNone(f0: seq<nat>, f: seq<nat>, first: nat, s: seq<nat>)
    requires LinksBounded(f) && LaidOver(f0, f, first, s) && first < |f| && Tail(s) < |f|
    ensures Allocated(f0, AllocChain(f, 0, first, Tail(s)), FreeClusters(f), 0, s, |s|)
  {
  }

  lemma AllocStep(f0: seq<nat>, f: seq<nat>, n: nat, first: nat, prev: nat, t: seq<nat>, size: nat)
    requires LinksBounded(f) && first < |f| && prev < |f| && n > 0
    requires FirstFree(f, 2) != 0
    requires var nc := FirstFree(f, 2);
             var g := AddCluster(f, prev, nc);
             && FreeClusters(g) == FreeClusters(f) - 1
             && Allocated(f0, AllocChain(g, n - 1, if prev == 0 then nc else first, nc), FreeClusters(g), n - 1, t, size)
    ensures Allocated(f0, AllocChain(f, n, first, prev), FreeClusters(f), n, t, size)
  {
  }

  /** The allocation loop succeeds exactly when enough clusters are free. It then lays one end-marked chain of
      the requested length over free entries, and otherwise leaves the table as it was before the loop. */
  lemma {:induction false} AllocChainLays(f0: seq<nat>, f: seq<nat>, n: nat, first: nat, s: seq<nat>) returns (t: seq<nat>)
    requires LinksBounded(f) && LaidOver(f0, f, first, s) && 2 <= |f|
    requires s == [] ==> first == 0
    ensures first < |f| && Tail(s) < |f|
    ensures Allocated(f0, AllocChain(f, n, first, Tail(s)), FreeClusters(f), n, t, |s| + n)
    decreases n
  {
    hide Allocated, AllocChain, LaidOver, FreeClusters, LinksBounded;
    LaidOverBounds(f0, f, first, s);
    if n == 0 {
      AllocNone(f0, f, first, s);
      return s;
    }
    var nc := FirstFree(f, 2);
    if nc == 0 {
      DiskFull(f0, f, n, first, s);
      return s;
    }
    AddClusterLays(f0, f, first, s, nc);
    t := AllocChainLays(f0, AddCluster(f, Tail(s), nc), n - 1, if s == [] then nc else first, s + [nc]);
    AllocStep(f0, f, n, first, Tail(s), t, |s| + n);
  }
}
