/**
 * The allocation table of fs/vfs.c: one 32-bit entry a cluster, each naming the next
 * cluster of a chain, its end, or nothing.
 */
module Fat {
  import opened Common

  const FAT_FREE: U32 := 0
  const FAT_EOF: U32 := 0xFFFF_FFFF
  const FIRST_DATA_CLUSTER: nat := 2
  const MAX_CLUSTERS: nat := 262144

  type Table = seq<U32>

  predicate IsFree(fat: Table, c: int) { FIRST_DATA_CLUSTER <= c < |fat| && fat[c] == FAT_FREE }

  /** `chain` is what following the table from its first cluster visits, up to the end mark. */
  ghost predicate IsChain(fat: Table, chain: seq<nat>) {
    && |chain| > 0
    && (forall j :: 0 <= j < |chain| ==> FIRST_DATA_CLUSTER <= chain[j] < |fat|)
    && (forall j {:trigger fat[chain[j]]} :: 0 <= j < |chain| - 1 ==> fat[chain[j]] == chain[j + 1])
    && fat[chain[|chain| - 1]] == FAT_EOF
  }

  ghost function Elements(s: seq<nat>): set<nat> { set c | c in s }

  /** Where a cluster sits: on whose chain, and how far along. */
  datatype Place = Place(owner: nat, pos: nat)

  /** The chains by owner, and the place of every cluster in use: two views of one thing. */
  datatype Ownership = Ownership(chains: map<nat, seq<nat>>, place: map<nat, Place>)

  const NOTHING_OWNED: Ownership := Ownership(map[], map[])

  ghost predicate FollowsTable(fat: Table, chains: map<nat, seq<nat>>) {
    forall a :: a in chains ==> IsChain(fat, chains[a])
  }

  /** Every cluster of a chain knows its place. */
  ghost predicate Placed(o: Ownership) {
    forall a, i :: a in o.chains && 0 <= i < |o.chains[a]| ==>
      o.chains[a][i] in o.place && o.place[o.chains[a][i]] == Place(a, i)
  }

  /** Every place is on a chain. */
  ghost predicate Backed(o: Ownership) {
    forall c :: c in o.place ==>
      && o.place[c].owner in o.chains && o.place[c].pos < |o.chains[o.place[c].owner]|
      && o.chains[o.place[c].owner][o.place[c].pos] == c
  }

  /** `place` is the inverse of `chains`, so no cluster is on two chains or twice on one. */
  ghost predicate Inverse(o: Ownership) { Placed(o) && Backed(o) }

  /** The data clusters in use are exactly these. */
  ghost predicate UsedExactly(fat: Table, used: set<nat>) {
    && (forall c :: c in used ==> FIRST_DATA_CLUSTER <= c < |fat|)
    && (forall c {:trigger fat[c]} :: FIRST_DATA_CLUSTER <= c < |fat| ==> (fat[c] != FAT_FREE <==> c in used))
  }

  /**
   * The whole-table invariant. Every owner's chain is finite and follows the table; a data
   * cluster is in use exactly when it has a place, and it has at most one.
   */
  ghost predicate Owned(fat: Table, o: Ownership) {
    && FIRST_DATA_CLUSTER <= |fat| <= MAX_CLUSTERS
    && fat[0] == FAT_EOF && fat[1] == FAT_EOF
    && FollowsTable(fat, o.chains)
    && Inverse(o)
    && UsedExactly(fat, o.place.Keys)
  }

  /** No cluster is on two chains, nor twice on one. */
  lemma ChainsDisjoint(fat: Table, o: Ownership, a: nat, i: nat, b: nat, j: nat)
    requires Owned(fat, o)
    requires a in o.chains && b in o.chains && i < |o.chains[a]| && j < |o.chains[b]|
    ensures o.chains[a][i] == o.chains[b][j] <==> a == b && i == j
  {
    assert o.place[o.chains[a][i]] == Place(a, i);
    assert o.place[o.chains[b][j]] == Place(b, j);
  }

  /** The chain from a cluster is determined by the table alone. */
  lemma {:induction false} ChainUnique(fat: Table, s: seq<nat>, t: seq<nat>)
    requires |fat| <= MAX_CLUSTERS
    requires IsChain(fat, s) && IsChain(fat, t) && s[0] == t[0]
    ensures s == t
  {
    if |s| > 1 && |t| > 1 {
      assert IsChain(fat, s[1..]) && IsChain(fat, t[1..]);
      assert fat[s[0]] == s[1] && fat[t[0]] == t[1];
      ChainUnique(fat, s[1..], t[1..]);
      assert s == [s[0]] + s[1..] && t == [t[0]] + t[1..];
    } else {
      assert fat[s[0]] == FAT_EOF;
      assert |s| == 1 && |t| == 1;
    }
  }

  /** A formatted table owns nothing. */
  lemma FormattedIsOwned(fat: Table)
    requires FIRST_DATA_CLUSTER <= |fat| <= MAX_CLUSTERS
    requires forall c :: 0 <= c < |fat| ==> fat[c] == if c < FIRST_DATA_CLUSTER then FAT_EOF else FAT_FREE
    ensures Owned(fat, NOTHING_OWNED)
  {
  }

  // ---- Allocation ----------------------------------------------------------------

  /** The free clusters below `n`, in order. */
  function FreeBelow(fat: Table, n: nat): seq<nat>
    requires n <= |fat|
  {
    if n == 0 then []
    else if IsFree(fat, n - 1) then FreeBelow(fat, n - 1) + [n - 1]
    else FreeBelow(fat, n - 1)
  }

  lemma {:induction false} FreeBelowSpec(fat: Table, n: nat)
    requires n <= |fat|
    ensures forall j :: 0 <= j < |FreeBelow(fat, n)| ==> FreeBelow(fat, n)[j] < n && IsFree(fat, FreeBelow(fat, n)[j])
    ensures forall c :: 0 <= c < n && IsFree(fat, c) ==> c in FreeBelow(fat, n)
    ensures forall i, j :: 0 <= i < j < |FreeBelow(fat, n)| ==> FreeBelow(fat, n)[i] < FreeBelow(fat, n)[j]
  {
    if n > 0 {
      FreeBelowSpec(fat, n - 1);
    }
  }

  function FreeClusters(fat: Table): seq<nat> { FreeBelow(fat, |fat|) }

  lemma {:induction false} FreeBelowPrefix(fat: Table, m: nat, n: nat)
    requires m <= n <= |fat|
    ensures FreeBelow(fat, m) <= FreeBelow(fat, n)
  {
    if m < n {
      FreeBelowPrefix(fat, m, n - 1);
    }
  }

  /** The first free clusters are free, and all different. */
  lemma FirstFree(fat: Table, count: nat)
    requires count <= |FreeClusters(fat)|
    ensures forall j :: 0 <= j < count ==> IsFree(fat, FreeClusters(fat)[..count][j])
    ensures forall i, j :: 0 <= i < j < count ==> FreeClusters(fat)[..count][i] < FreeClusters(fat)[..count][j]
  {
    FreeBelowSpec(fat, |fat|);
  }

  /** The table with a run of clusters linked into one chain, and nothing else changed. */
  ghost predicate Linked(before: Table, after: Table, chain: seq<nat>) {
    && |after| == |before|
    && (chain != [] ==> IsChain(after, chain))
    && (forall c :: 0 <= c < |before| && c !in chain ==> after[c] == before[c])
  }

  ghost function GiveChain(o: Ownership, a: nat, chain: seq<nat>): Ownership
    requires forall i, j :: 0 <= i < j < |chain| ==> chain[i] != chain[j]
  {
    Ownership(o.chains[a := chain], o.place + map j | 0 <= j < |chain| :: chain[j] := Place(a, j))
  }

  /** Chains survive any change to the table that misses them. */
  lemma ChainsUntouched(before: Table, after: Table, chains: map<nat, seq<nat>>)
    requires FollowsTable(before, chains) && |after| == |before|
    requires forall b, j :: b in chains && 0 <= j < |chains[b]| && chains[b][j] < |after| ==>
               after[chains[b][j]] == before[chains[b][j]]
    ensures FollowsTable(after, chains)
  {
    forall b | b in chains
      ensures IsChain(after, chains[b])
    {
      var chain := chains[b];
      assert IsChain(before, chain);
      assert forall j :: 0 <= j < |chain| ==> after[chain[j]] == before[chain[j]];
    }
  }

  lemma GiveChainInverse(o: Ownership, a: nat, chain: seq<nat>)
    requires Inverse(o) && a !in o.chains
    requires forall i, j :: 0 <= i < j < |chain| ==> chain[i] != chain[j]
    requires forall j :: 0 <= j < |chain| ==> chain[j] !in o.place
    ensures Inverse(GiveChain(o, a, chain))
    ensures GiveChain(o, a, chain).place.Keys == o.place.Keys + Elements(chain)
  {
    var o' := GiveChain(o, a, chain);
    forall b, i | b in o'.chains && 0 <= i < |o'.chains[b]|
      ensures o'.chains[b][i] in o'.place && o'.place[o'.chains[b][i]] == Place(b, i)
    {
      if b != a {
        assert o.place[o.chains[b][i]] == Place(b, i);
      }
    }
  }

  /** Linking free clusters leaves every chain already there alone. */
  lemma AllocateUntouched(before: Table, after: Table, o: Ownership, chain: seq<nat>)
    requires Owned(before, o) && Linked(before, after, chain)
    requires forall j :: 0 <= j < |chain| ==> IsFree(before, chain[j])
    ensures FollowsTable(after, o.chains)
    ensures forall j :: 0 <= j < |chain| ==> chain[j] !in o.place
  {
    forall b, j | b in o.chains && 0 <= j < |o.chains[b]| && o.chains[b][j] < |after|
      ensures after[o.chains[b][j]] == before[o.chains[b][j]]
    {
      assert o.chains[b][j] in o.place.Keys;
    }
    ChainsUntouched(before, after, o.chains);
  }

  lemma FollowsMore(fat: Table, chains: map<nat, seq<nat>>, a: nat, chain: seq<nat>)
    requires FollowsTable(fat, chains) && IsChain(fat, chain)
    ensures FollowsTable(fat, chains[a := chain])
  {
  }

  lemma AllocateUsed(before: Table, after: Table, used: set<nat>, chain: seq<nat>)
    requires UsedExactly(before, used) && IsChain(after, chain) && Linked(before, after, chain)
    ensures UsedExactly(after, used + Elements(chain))
  {
    forall c | FIRST_DATA_CLUSTER <= c < |after|
      ensures after[c] != FAT_FREE <==> c in used + Elements(chain)
    {
      if c in chain {
        var j :| 0 <= j < |chain| && chain[j] == c;
        assert j < |chain| - 1 ==> after[chain[j]] == chain[j + 1];
      }
    }
  }

  /** Linking free clusters into a chain for a new owner keeps the invariant. */
  lemma AllocateKeeps(before: Table, after: Table, o: Ownership, a: nat, chain: seq<nat>)
    requires Owned(before, o) && a !in o.chains && chain != []
    requires Linked(before, after, chain)
    requires forall j :: 0 <= j < |chain| ==> IsFree(before, chain[j])
    requires forall i, j :: 0 <= i < j < |chain| ==> chain[i] != chain[j]
    ensures Owned(after, GiveChain(o, a, chain))
  {
    hide Placed, Backed, UsedExactly, FollowsTable;
    AllocateUntouched(before, after, o, chain);
    GiveChainInverse(o, a, chain);
    AllocateUsed(before, after, o.place.Keys, chain);
    FollowsMore(after, o.chains, a, chain);
    assert 0 !in chain && 1 !in chain;
  }

  // ---- Release -------------------------------------------------------------------

  /** The table with a chain's clusters freed. */
  ghost predicate Released(before: Table, after: Table, chain: seq<nat>) {
    && |after| == |before|
    && (forall c :: 0 <= c < |before| ==> after[c] == if c in chain then FAT_FREE else before[c])
  }

  ghost function DropChain(o: Ownership, a: nat): Ownership
    requires a in o.chains
  {
    Ownership(o.chains - {a}, map c | c in o.place && o.place[c].owner != a :: o.place[c])
  }

  lemma DropChainInverse(o: Ownership, a: nat)
    requires Inverse(o) && a in o.chains
    ensures Inverse(DropChain(o, a))
    ensures forall c :: c in o.place ==> (c in o.chains[a] <==> o.place[c].owner == a)
    ensures DropChain(o, a).place.Keys == o.place.Keys - Elements(o.chains[a])
  {
    forall c | c in o.place
      ensures c in o.chains[a] <==> o.place[c].owner == a
    {
      if c in o.chains[a] {
        var i :| 0 <= i < |o.chains[a]| && o.chains[a][i] == c;
        assert o.place[o.chains[a][i]] == Place(a, i);
      }
    }
    var o' := DropChain(o, a);
    forall b, i | b in o'.chains && 0 <= i < |o'.chains[b]|
      ensures o'.chains[b][i] in o'.place && o'.place[o'.chains[b][i]] == Place(b, i)
    {
      assert o.place[o.chains[b][i]] == Place(b, i);
    }
  }

  lemma ReleaseUsed(before: Table, after: Table, used: set<nat>, chain: seq<nat>)
    requires UsedExactly(before, used) && Released(before, after, chain)
    ensures UsedExactly(after, used - Elements(chain))
  {
  }

  /** Freeing one owner's chain leaves every other alone. */
  lemma ReleaseUntouched(before: Table, after: Table, o: Ownership, a: nat)
    requires Owned(before, o) && a in o.chains
    requires Released(before, after, o.chains[a])
    ensures FollowsTable(after, DropChain(o, a).chains)
  {
    DropChainInverse(o, a);
    var rest := DropChain(o, a).chains;
    forall b, j | b in rest && 0 <= j < |rest[b]| && rest[b][j] < |after|
      ensures after[rest[b][j]] == before[rest[b][j]]
    {
      assert o.place[o.chains[b][j]] == Place(b, j);
    }
    ChainsUntouched(before, after, rest);
  }

  /** Freeing an owner's chain keeps the invariant. */
  lemma ReleaseKeeps(before: Table, after: Table, o: Ownership, a: nat)
    requires Owned(before, o) && a in o.chains
    requires Released(before, after, o.chains[a])
    ensures Owned(after, DropChain(o, a))
  {
    DropChainInverse(o, a);
    ReleaseUntouched(before, after, o, a);
    ReleaseUsed(before, after, o.place.Keys, o.chains[a]);
    assert 0 !in o.chains[a] && 1 !in o.chains[a];
  }

  /** The owner that takes over from `d` when two owners exchange chains. */
  function Other(a: nat, b: nat, d: nat): nat { if d == a then b else if d == b then a else d }

  ghost function SwapChains<V>(m: map<nat, V>, a: nat, b: nat): map<nat, V> {
    map d | d in m.Keys + {a, b} && Other(a, b, d) in m :: m[Other(a, b, d)]
  }

  lemma GiveChainIs(o: Ownership, a: nat, chain: seq<nat>)
    requires forall i, j :: 0 <= i < j < |chain| ==> chain[i] != chain[j]
    ensures GiveChain(o, a, chain).chains == o.chains[a := chain]
  {
  }

  ghost function SwapOwners(o: Ownership, a: nat, b: nat): Ownership {
    Ownership(SwapChains(o.chains, a, b), map c | c in o.place :: Place(Other(a, b, o.place[c].owner), o.place[c].pos))
  }

  lemma SwapPlaced(o: Ownership, a: nat, b: nat)
    requires Placed(o)
    ensures Placed(SwapOwners(o, a, b))
  {
    hide SwapOwners;
    var o' := SwapOwners(o, a, b);
    forall d, i | d in o'.chains && 0 <= i < |o'.chains[d]|
      ensures o'.chains[d][i] in o'.place && o'.place[o'.chains[d][i]] == Place(d, i)
    {
      SwapPlacedAt(o, a, b, d, i);
    }
  }

  lemma SwapPlacedAt(o: Ownership, a: nat, b: nat, d: nat, i: nat)
    requires Placed(o) && d in SwapOwners(o, a, b).chains && i < |SwapOwners(o, a, b).chains[d]|
    ensures var o' := SwapOwners(o, a, b);
            o'.chains[d][i] in o'.place && o'.place[o'.chains[d][i]] == Place(d, i)
  {
    var e := Other(a, b, d);
    assert o.chains[e][i] in o.place && o.place[o.chains[e][i]] == Place(e, i);
  }

  lemma SwapBacked(o: Ownership, a: nat, b: nat)
    requires Backed(o)
    ensures Backed(SwapOwners(o, a, b))
  {
    var o' := SwapOwners(o, a, b);
    forall c | c in o'.place
      ensures o'.place[c].owner in o'.chains && o'.chains[o'.place[c].owner] == o.chains[o.place[c].owner]
    {
      assert Other(a, b, Other(a, b, o.place[c].owner)) == o.place[c].owner;
    }
  }

  /** Who holds a chain is no business of the table's. */
  lemma SwapOwnersKeeps(fat: Table, o: Ownership, a: nat, b: nat)
    requires Owned(fat, o)
    ensures Owned(fat, SwapOwners(o, a, b))
  {
    SwapPlaced(o, a, b);
    SwapBacked(o, a, b);
    assert SwapOwners(o, a, b).place.Keys == o.place.Keys;
    hide Placed, Backed, UsedExactly, IsChain;
  }

  // ---- Conservation --------------------------------------------------------------

  /** Clusters held by owners below `n`, counted chain by chain. */
  ghost function HeldBelow(chains: map<nat, seq<nat>>, n: nat): nat {
    if n == 0 then 0 else HeldBelow(chains, n - 1) + if n - 1 in chains then |chains[n - 1]| else 0
  }

  ghost function PlacedBelow(o: Ownership, n: nat): set<nat> {
    set c | c in o.place && o.place[c].owner < n
  }

  lemma PlacedStep(o: Ownership, n: nat)
    requires Inverse(o)
    ensures |PlacedBelow(o, n + 1)| == |PlacedBelow(o, n)| + if n in o.chains then |o.chains[n]| else 0
  {
    if n in o.chains {
      DropChainInverse(o, n);
      assert forall c :: c in Elements(o.chains[n]) ==> c in o.place;
      ChainDistinct(o, n);
      DistinctCount(o.chains[n]);
      DisjointCount(PlacedBelow(o, n), Elements(o.chains[n]), PlacedBelow(o, n + 1));
    } else {
      assert PlacedBelow(o, n + 1) == PlacedBelow(o, n);
    }
  }

  lemma DisjointCount(a: set<nat>, b: set<nat>, both: set<nat>)
    requires forall c :: c in both <==> c in a || c in b
    requires forall c :: !(c in a && c in b)
    ensures |both| == |a| + |b|
  {
    assert both == a + b;
  }

  lemma {:induction false} HeldCounts(o: Ownership, n: nat)
    requires Inverse(o)
    ensures |PlacedBelow(o, n)| == HeldBelow(o.chains, n)
  {
    if n == 0 {
      assert PlacedBelow(o, 0) == {};
    } else {
      hide Inverse, PlacedBelow;
      HeldCounts(o, n - 1);
      PlacedStep(o, n - 1);
    }
  }

  lemma ChainDistinct(o: Ownership, a: nat)
    requires Inverse(o) && a in o.chains
    ensures forall i, j :: 0 <= i < j < |o.chains[a]| ==> o.chains[a][i] != o.chains[a][j]
  {
    assert forall i :: 0 <= i < |o.chains[a]| ==> o.place[o.chains[a][i]] == Place(a, i);
  }

  lemma {:induction false} DistinctCount(s: seq<nat>)
    requires forall i, j :: 0 <= i < j < |s| ==> s[i] != s[j]
    ensures |Elements(s)| == |s|
  {
    if s == [] {
      assert Elements(s) == {};
    } else {
      var n := |s| - 1;
      DistinctCount(s[..n]);
      assert s == s[..n] + [s[n]];
      assert Elements(s) == Elements(s[..n]) + {s[n]};
      assert s[n] !in Elements(s[..n]);
    }
  }

  predicate IsDataCluster(n: nat, c: nat) { FIRST_DATA_CLUSTER <= c < n }

  ghost function DataClusters(n: nat): set<nat> { set c: nat | c < n && IsDataCluster(n, c) }

  lemma {:induction false} DataClusterCount(n: nat)
    requires n >= FIRST_DATA_CLUSTER
    ensures |DataClusters(n)| == n - FIRST_DATA_CLUSTER
  {
    if n > FIRST_DATA_CLUSTER {
      DataClusterCount(n - 1);
      assert DataClusters(n) == DataClusters(n - 1) + {n - 1};
    } else {
      assert DataClusters(n) == {};
    }
  }

  /** Nothing is created or destroyed: free clusters, held clusters and the two reserved make up the disk. */
  lemma Conservation(fat: Table, o: Ownership, owners: nat)
    requires Owned(fat, o)
    requires forall a :: a in o.chains ==> a < owners
    ensures |FreeClusters(fat)| + HeldBelow(o.chains, owners) + FIRST_DATA_CLUSTER == |fat|
  {
    FreeOrPlaced(fat, o);
    AllPlacedBelow(o, owners);
    hide *;
    HeldCounts(o, owners);
  }

  lemma AllPlacedBelow(o: Ownership, n: nat)
    requires Inverse(o)
    requires forall a :: a in o.chains ==> a < n
    ensures PlacedBelow(o, n) == o.place.Keys
  {
  }

  lemma FreeOrPlaced(fat: Table, o: Ownership)
    requires Owned(fat, o)
    ensures |FreeClusters(fat)| + |o.place.Keys| + FIRST_DATA_CLUSTER == |fat|
  {
    var free := FreeClusters(fat);
    FreeBelowSpec(fat, |fat|);
    forall c: nat
      ensures c in free <==> IsFree(fat, c)
    {
      if c in free {
        var j :| 0 <= j < |free| && free[j] == c;
      }
    }
    DistinctCount(free);
    DataClusterCount(|fat|);
    DisjointCount(Elements(free), o.place.Keys, DataClusters(|fat|));
  }
}
