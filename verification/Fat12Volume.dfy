/** Where a FAT12 volume keeps its parts, and the expansion of a cluster chain into sectors. */
module Fat12Volume {
  import opened Arithmetic
  import opened Fat12Fat

  /** The fields of the boot sector that the layout depends on. */
  datatype BootSector = BootSector(
    bytesPerSector: nat, sectorsPerCluster: nat, reservedSectors: nat, fats: nat, fatSize: nat, rootEntries: nat)

  /** Size of a directory entry. */
  const ENTRY_SIZE: nat := 32

  datatype Sector = Sector(number: nat) | NoCluster

  function RootSector(b: BootSector): nat {
    b.reservedSectors + b.fats * b.fatSize
  }

  function RootSectors(b: BootSector): nat
    requires b.bytesPerSector > 0
  {
    b.rootEntries * ENTRY_SIZE / b.bytesPerSector
  }

  function FirstDataSector(b: BootSector): nat
    requires b.bytesPerSector > 0
  {
    RootSector(b) + RootSectors(b)
  }

  /** Rounding down leaves room for all root entries exactly when they fill whole sectors. */
  lemma RootHoldsAllIff(b: BootSector)
    requires b.bytesPerSector > 0
    ensures b.rootEntries * ENTRY_SIZE <= RootSectors(b) * b.bytesPerSector <==>
            b.rootEntries * ENTRY_SIZE % b.bytesPerSector == 0
  {}

  /** `sector_from_cluster`: cluster 0 stands for the root directory, cluster 1 panics. */
  function SectorFromCluster(b: BootSector, cluster: nat): Sector
    requires b.bytesPerSector > 0
  {
    if cluster == 0 then Sector(RootSector(b))
    else if cluster == 1 then NoCluster
    else Sector(FirstDataSector(b) + (cluster - 2) * b.sectorsPerCluster)
  }

  /** A 1.44 MB disk: the root directory at byte 0x2600, clusters 2, 3, 4 and 202 where the source notes them. */
  lemma StandardDisk()
    ensures var b := BootSector(512, 1, 1, 2, 9, 224);
      && RootSector(b) * 512 == 0x2600 && RootSectors(b) == 14 && SectorFromCluster(b, 0) == Sector(0x2600 / 512)
      && SectorFromCluster(b, 2) == Sector(0x4200 / 512) && SectorFromCluster(b, 3) == Sector(0x4400 / 512)
      && SectorFromCluster(b, 4) == Sector(0x4600 / 512) && SectorFromCluster(b, 202) == Sector(0x1D200 / 512)
  {}

  function Link(fat: seq<ClusterId>, c: nat): nat
    requires c < |fat|
  {
    fat[c] as nat
  }

  predicate EndMark(c: nat) { c == 0xFF0 || c == 0xFFF }

  /** `c` is the chain from `first`: in range, linked, without cluster 1, and ended by the first end mark. */
  ghost predicate Chain(fat: seq<ClusterId>, c: seq<nat>, first: nat) {
    && c != [] && c[0] == first && (forall k | 0 <= k < |c| :: c[k] < |fat| && c[k] != 1)
    && (forall k {:trigger Follows(fat, c, k)} | 0 <= k < |c| - 1 :: Follows(fat, c, k))
    && EndMark(Link(fat, c[|c| - 1]))
  }

  ghost predicate Follows(fat: seq<ClusterId>, c: seq<nat>, k: nat)
    requires k + 1 < |c| && c[k] < |fat|
  {
    c[k + 1] == Link(fat, c[k]) && !EndMark(c[k + 1])
  }

  /** In the table's own numbers: the last link is 0xFF0 or 0xFFF, and each other one is the next cluster. */
  ghost predicate LinkRight(fat: seq<ClusterId>, c: seq<nat>, k: nat)
    requires k < |c| && c[k] < |fat|
  {
    if k == |c| - 1 then fat[c[k]] == 0xFF0 || fat[c[k]] == 0xFFF
    else fat[c[k]] != 0xFF0 && fat[c[k]] != 0xFFF && c[k + 1] == fat[c[k]] as nat
  }

  lemma ChainIs(fat: seq<ClusterId>, c: seq<nat>, first: nat)
    ensures Chain(fat, c, first) <==>
            c != [] && c[0] == first && forall k | 0 <= k < |c| :: c[k] < |fat| && c[k] != 1 && LinkRight(fat, c, k)
  {
    forall k: nat | k < |c| && c[k] < |fat|
      ensures LinkRight(fat, c, k) <==> if k == |c| - 1 then EndMark(Link(fat, c[k])) else Follows(fat, c, k)
    {
      NoMark(fat[c[k]]);
    }
    if Chain(fat, c, first) {
      forall k: nat | k < |c| ensures LinkRight(fat, c, k) { assert k < |c| - 1 ==> Follows(fat, c, k); }
    } else if c != [] && c[0] == first && forall k | 0 <= k < |c| :: c[k] < |fat| && c[k] != 1 && LinkRight(fat, c, k) {
      forall k | 0 <= k < |c| - 1 ensures Follows(fat, c, k) { assert LinkRight(fat, c, k); }
      assert LinkRight(fat, c, |c| - 1);
    }
  }

  lemma NoMark(e: ClusterId)
    ensures EndMark(e as nat) <==> e == 0xFF0 || e == 0xFFF
  {}

  /** Meeting a cluster twice would mean meeting its successors twice, up to one that has none. */
  lemma {:induction false} ChainDistinct(fat: seq<ClusterId>, c: seq<nat>, first: nat, i: nat, j: nat)
    requires Chain(fat, c, first) && i < j < |c|
    ensures c[i] != c[j]
    decreases |c| - j
  {
    assert Follows(fat, c, i);
    if j < |c| - 1 {
      assert Follows(fat, c, j);
      ChainDistinct(fat, c, first, i + 1, j + 1);
    }
  }

  /** Where one chain ends, another at the same cluster cannot go on. */
  lemma LastHasNoSuccessor(fat: seq<ClusterId>, c: seq<nat>, d: seq<nat>, first: nat)
    requires Chain(fat, c, first) && Chain(fat, d, first) && |c| <= |d| && c[|c| - 1] == d[|c| - 1]
    ensures |c| == |d|
  {
    assert |c| < |d| ==> Follows(fat, d, |c| - 1);
  }

  /** The table has no second chain from the same cluster. */
  lemma {:induction false} ChainUnique(fat: seq<ClusterId>, c: seq<nat>, d: seq<nat>, first: nat)
    requires Chain(fat, c, first) && Chain(fat, d, first)
    ensures c == d
  {
    var k := 0;
    while k < |c| && k < |d|
      invariant k <= |c| && k <= |d| && c[..k] == d[..k]
    {
      if k > 0 {
        assert Follows(fat, c, k - 1) && Follows(fat, d, k - 1);
        assert c[..k][k - 1] == d[..k][k - 1];
      }
      k := k + 1;
    }
    assert c[..k][k - 1] == d[..k][k - 1];
    if |c| <= |d| { LastHasNoSuccessor(fat, c, d, first); } else { LastHasNoSuccessor(fat, d, c, first); }
  }

  /** No chain is longer than the table. */
  lemma ChainShort(fat: seq<ClusterId>, c: seq<nat>, first: nat)
    requires Chain(fat, c, first)
    ensures |c| <= |fat|
  {
    forall i, j | 0 <= i < j < |c| ensures c[i] != c[j] {
      ChainDistinct(fat, c, first, i, j);
    }
    DistinctBelow(c, |fat|);
  }

  lemma {:induction false} DistinctBelow(c: seq<nat>, n: nat)
    requires (forall k | 0 <= k < |c| :: c[k] < n) && forall i, j | 0 <= i < j < |c| :: c[i] != c[j]
    ensures |c| <= n
  {
    var members := Members(c);
    assert members <= Numbers(n);
    Subset(members, Numbers(n));
  }

  ghost function {:induction false} Members(c: seq<nat>): (r: set<nat>)
    requires forall i, j | 0 <= i < j < |c| :: c[i] != c[j]
    ensures |r| == |c| && forall x :: x in r <==> x in c
  {
    if c == [] then {} else
      assert c == c[..|c| - 1] + [c[|c| - 1]];
      Members(c[..|c| - 1]) + {c[|c| - 1]}
  }

  ghost function {:induction false} Numbers(n: nat): (r: set<nat>)
    ensures |r| == n && forall x: nat :: x in r <==> x < n
  {
    if n == 0 then {} else Numbers(n - 1) + {n - 1}
  }

  lemma {:induction false} Subset(a: set<nat>, b: set<nat>)
    requires a <= b
    ensures |a| <= |b|
    decreases a
  {
    if a != {} {
      var x :| x in a;
      Subset(a - {x}, b - {x});
    }
  }

  /** What becomes of a walk of at most `fuel` links: the chain it ends with, a panic, or a read behind the table. */
  datatype Fate = Ends(chain: seq<nat>) | Panics | Leaves | Circles

  function FateOf(fat: seq<ClusterId>, c: nat, fuel: nat): Fate
    decreases fuel
  {
    if c == 1 || c > |fat| then Panics
    else if c == |fat| then Leaves
    else if EndMark(Link(fat, c)) then Ends([c])
    else if fuel == 0 then Circles
    else Behind([c], FateOf(fat, Link(fat, c), fuel - 1))
  }

  /** The other end marks of the FAT specification do not end a chain: a table with fewer entries makes them panic. */
  lemma OtherMarksPanic(fat: seq<ClusterId>, cluster: nat, fuel: nat)
    requires cluster < |fat| < 0xFF8 && cluster != 1 && 0xFF8 <= fat[cluster] < 0xFFF && fuel > 0
    ensures FateOf(fat, cluster, fuel) == Panics
  {
    assert FateOf(fat, Link(fat, cluster), fuel - 1) == Panics;
  }

  /** A walk that had already passed the clusters `done`. */
  function Behind(done: seq<nat>, fate: Fate): Fate {
    if fate.Ends? then Ends(done + fate.chain) else fate
  }

  lemma {:induction false} MoreFuel(fat: seq<ClusterId>, c: nat, fuel: nat, more: nat)
    requires fuel <= more && !FateOf(fat, c, fuel).Circles?
    ensures FateOf(fat, c, more) == FateOf(fat, c, fuel)
    decreases fuel
  {
    if fuel > 0 && c < |fat| && c != 1 && !EndMark(Link(fat, c)) {
      MoreFuel(fat, Link(fat, c), fuel - 1, more - 1);
    }
  }

  /** The walk stops after exactly `fuel` links. */
  ghost predicate StopsAfter(fat: seq<ClusterId>, c: nat, fuel: nat) {
    !FateOf(fat, c, fuel).Circles? && (fuel > 0 ==> FateOf(fat, c, fuel - 1).Circles?)
  }

  lemma StopsOnce(fat: seq<ClusterId>, c: nat, k: nat, l: nat)
    requires StopsAfter(fat, c, k) && StopsAfter(fat, c, l)
    ensures k == l
  {
    if k < l { MoreFuel(fat, c, k, l - 1); }
    if l < k { MoreFuel(fat, c, l, k - 1); }
  }

  /**
    The clusters left behind by a walk of `fuel` links: each stops after another number of links, so all
    are different.
  */
  ghost function {:induction false} Passed(fat: seq<ClusterId>, c: nat, fuel: nat): (r: set<nat>)
    requires StopsAfter(fat, c, fuel)
    ensures |r| == fuel && forall x | x in r :: x < |fat| && exists k: nat :: k <= fuel && StopsAfter(fat, x, k)
    decreases fuel
  {
    if fuel == 0 then {}
    else
      var rest := Passed(fat, Link(fat, c), fuel - 1);
      assert c !in rest by {
        if c in rest {
          var k: nat :| k <= fuel - 1 && StopsAfter(fat, c, k);
          StopsOnce(fat, c, k, fuel);
        }
      }
      {c} + rest
  }

  /** A walk that has not stopped after as many links as the table has entries never stops. */
  lemma CirclesForEver(fat: seq<ClusterId>, c: nat, fuel: nat)
    requires FateOf(fat, c, |fat|).Circles?
    ensures FateOf(fat, c, fuel).Circles?
  {
    if !FateOf(fat, c, fuel).Circles? {
      var k := StopsSomewhere(fat, c, fuel);
      if k <= |fat| {
        MoreFuel(fat, c, k, |fat|);
      } else {
        Subset(Passed(fat, c, k), Numbers(|fat|));
      }
    }
  }

  lemma {:induction false} StopsSomewhere(fat: seq<ClusterId>, c: nat, fuel: nat) returns (k: nat)
    requires !FateOf(fat, c, fuel).Circles?
    ensures StopsAfter(fat, c, k)
    decreases fuel
  {
    if fuel == 0 || FateOf(fat, c, fuel - 1).Circles? {
      k := fuel;
    } else {
      k := StopsSomewhere(fat, c, fuel - 1);
    }
  }

  lemma {:induction false} FateIsChain(fat: seq<ClusterId>, first: nat, fuel: nat)
    requires FateOf(fat, first, fuel).Ends?
    ensures Chain(fat, FateOf(fat, first, fuel).chain, first)
    decreases fuel
  {
    if !EndMark(Link(fat, first)) {
      FateIsChain(fat, Link(fat, first), fuel - 1);
      ChainPrepended(fat, FateOf(fat, Link(fat, first), fuel - 1).chain, first);
    }
  }

  lemma {:induction false} ChainIsFate(fat: seq<ClusterId>, c: seq<nat>, first: nat, i: nat, fuel: nat)
    requires Chain(fat, c, first) && i < |c| && fuel + i >= |c| - 1
    ensures FateOf(fat, c[i], fuel) == Ends(c[i..])
    decreases |c| - i
  {
    if i < |c| - 1 {
      assert Follows(fat, c, i);
      ChainIsFate(fat, c, first, i + 1, fuel - 1);
      assert c[i..] == [c[i]] + c[i + 1..];
    } else {
      assert c[i..] == [c[i]];
    }
  }

  lemma ChainPrepended(fat: seq<ClusterId>, rest: seq<nat>, first: nat)
    requires first < |fat| && first != 1 && !EndMark(Link(fat, first)) && Chain(fat, rest, Link(fat, first))
    ensures Chain(fat, [first] + rest, first)
  {
    var c := [first] + rest;
    forall k | 0 <= k < |c| - 1 ensures Follows(fat, c, k) {
      if k > 0 { assert Follows(fat, rest, k - 1); }
    }
  }

  /**
    A chain is what a walk of as many links as the table has entries ends with, and there is none
    exactly when it does not end.
  */
  lemma ExpansionEndsIff(fat: seq<ClusterId>, first: nat)
    ensures (exists c :: Chain(fat, c, first)) <==> FateOf(fat, first, |fat|).Ends?
    ensures forall c | Chain(fat, c, first) :: FateOf(fat, first, |fat|) == Ends(c)
  {
    forall c | Chain(fat, c, first) ensures FateOf(fat, first, |fat|) == Ends(c) {
      ChainShort(fat, c, first);
      ChainIsFate(fat, c, first, 0, |fat|);
      assert c[0..] == c;
    }
    if FateOf(fat, first, |fat|).Ends? {
      FateIsChain(fat, first, |fat|);
    }
  }

  // ---- Sectors of a chain ----

  /** Sector numbers are kept in 16 bits. */
  function Narrow(x: nat): nat { x % 0x10000 }

  ghost function ClusterSectors(b: BootSector, cluster: nat, n: nat): (r: seq<nat>)
    requires b.bytesPerSector > 0 && cluster != 1
    ensures |r| == n
  {
    seq<nat>(n, i requires 0 <= i < n => Narrow(SectorFromCluster(b, cluster).number + i))
  }

  /** The sectors of the clusters of `c`, cluster after cluster. */
  ghost function SectorList(b: BootSector, c: seq<nat>): (r: seq<nat>)
    requires b.bytesPerSector > 0 && forall k | 0 <= k < |c| :: c[k] != 1
    ensures |r| == |c| * b.sectorsPerCluster
  {
    if c == [] then []
    else
      StepBack(|c|, b.sectorsPerCluster);
      SectorList(b, c[..|c| - 1]) + ClusterSectors(b, c[|c| - 1], b.sectorsPerCluster)
  }

  lemma StepBack(n: nat, s: nat)
    requires n > 0
    ensures (n - 1) * s + s == n * s
  {}

  lemma {:induction false} SectorAt(b: BootSector, c: seq<nat>, k: nat, i: nat)
    requires b.bytesPerSector > 0 && (forall j | 0 <= j < |c| :: c[j] != 1) && k < |c| && i < b.sectorsPerCluster
    ensures 0 <= k * b.sectorsPerCluster + i < |SectorList(b, c)|
    ensures SectorList(b, c)[k * b.sectorsPerCluster + i] == Narrow(SectorFromCluster(b, c[k]).number + i)
    decreases |c|
  {
    var n, s := |c| - 1, b.sectorsPerCluster;
    StepBack(|c|, s);
    if k < n {
      SectorAt(b, c[..n], k, i);
    }
  }

  /** The sectors of all clusters of the chain have numbers of 16 bits. */
  ghost predicate Below64K(b: BootSector, c: seq<nat>) {
    b.bytesPerSector > 0 && forall k | 0 <= k < |c| :: c[k] != 1 && ClusterBelow64K(b, c[k])
  }

  predicate ClusterBelow64K(b: BootSector, cluster: nat)
    requires b.bytesPerSector > 0 && cluster != 1
  {
    SectorFromCluster(b, cluster).number + b.sectorsPerCluster <= 0x10000
  }

  /** The list holds sector `i` of cluster number `k` of the chain, and not what is left of it in 16 bits. */
  ghost predicate SectorRight(b: BootSector, c: seq<nat>, k: nat, i: nat)
    requires b.bytesPerSector > 0 && (forall j | 0 <= j < |c| :: c[j] != 1) && k < |c|
  {
    && k * b.sectorsPerCluster + i < |SectorList(b, c)|
    && SectorList(b, c)[k * b.sectorsPerCluster + i] == SectorFromCluster(b, c[k]).number + i
  }

  /** A list is right throughout exactly when clusters have no sectors or the chain lies below sector 2^16. */
  lemma SectorsRightIff(b: BootSector, c: seq<nat>)
    requires b.bytesPerSector > 0 && forall k | 0 <= k < |c| :: c[k] != 1
    ensures (forall k: nat, i: nat | k < |c| && i < b.sectorsPerCluster :: SectorRight(b, c, k, i)) <==>
            b.sectorsPerCluster == 0 || Below64K(b, c)
  {
    hide SectorList, FirstDataSector, RootSector;
    var s := b.sectorsPerCluster;
    forall k: nat, i: nat | k < |c| && i < s
      ensures SectorRight(b, c, k, i) <==> SectorFromCluster(b, c[k]).number + i < 0x10000
    {
      SectorAt(b, c, k, i);
    }
    if s > 0 && forall k: nat, i: nat | k < |c| && i < s :: SectorRight(b, c, k, i) {
      forall k: nat | k < |c| ensures ClusterBelow64K(b, c[k]) {
        assert SectorRight(b, c, k, s - 1);
      }
    }
  }

  lemma InData(b: BootSector, clusters: nat, c: nat, i: nat)
    requires b.bytesPerSector > 0 && 2 <= c < clusters && i < b.sectorsPerCluster
    ensures var x := FirstDataSector(b) + (c - 2) * b.sectorsPerCluster + i;
      FirstDataSector(b) <= x < FirstDataSector(b) + (clusters - 2) * b.sectorsPerCluster
  {
    MulSign(clusters - 1 - c + 1, b.sectorsPerCluster);
    assert (clusters - c) * b.sectorsPerCluster == (clusters - 2) * b.sectorsPerCluster - (c - 2) * b.sectorsPerCluster;
  }

  /** Different clusters have disjoint sectors. */
  lemma ClustersApart(s: nat, c: nat, d: nat, i: nat, j: nat)
    requires c != d && i < s && j < s
    ensures c * s + i != d * s + j
  {
    MulSign(c - d, s);
    assert (c - d) * s == c * s - d * s;
  }

  /** Sector `i` of cluster number `k` of a chain of data clusters lies in the data area. */
  lemma OneSector(b: BootSector, fat: seq<ClusterId>, c: seq<nat>, k: nat, i: nat)
    requires Below64K(b, c) && (forall j | 0 <= j < |c| :: 2 <= c[j] < |fat|) && k < |c| && i < b.sectorsPerCluster
    ensures k * b.sectorsPerCluster + i < |SectorList(b, c)|
    ensures var x := SectorList(b, c)[k * b.sectorsPerCluster + i];
      && x == b.reservedSectors + b.fats * b.fatSize + b.rootEntries * 32 / b.bytesPerSector
              + (c[k] - 2) * b.sectorsPerCluster + i
      && FirstDataSector(b) <= x < FirstDataSector(b) + (|fat| - 2) * b.sectorsPerCluster
  {
    hide SectorList;
    SectorAt(b, c, k, i);
    InData(b, |fat|, c[k], i);
  }

  /** Entry x of the list of sectors belongs to sector `i` of cluster number `k` of the chain. */
  lemma Split(x: nat, n: nat, s: nat) returns (k: nat, i: nat)
    requires x < n * s
    ensures k < n && i < s && x == k * s + i
  {
    k, i := x / s, x % s;
    QuotientBelow(k, n, s, x, i);
  }

  lemma QuotientBelow(k: nat, n: nat, s: nat, x: nat, i: nat)
    requires x < n * s && x == k * s + i
    ensures k < n
  {
    assert (k - n) * s == k * s - n * s;
    MulSign(k - n, s);
  }

  lemma PairApart(fat: seq<ClusterId>, c: seq<nat>, first: nat, s: nat, k: nat, i: nat, l: nat, j: nat)
    requires Chain(fat, c, first) && forall i | 0 <= i < |c| :: c[i] >= 2
    requires k < |c| && l < |c| && i < s && j < s && (k != l || i != j)
    ensures (c[k] - 2) * s + i != (c[l] - 2) * s + j
  {
    if k != l {
      ChainDistinct(fat, c, first, if k < l then k else l, if k < l then l else k);
      ClustersApart(s, c[k] - 2, c[l] - 2, i, j);
    }
  }

  /** The list of sectors of a chain of data clusters has no duplicates. */
  lemma SectorsDistinct(b: BootSector, fat: seq<ClusterId>, c: seq<nat>, first: nat, x: nat, y: nat)
    requires Below64K(b, c) && Chain(fat, c, first) && forall i | 0 <= i < |c| :: c[i] >= 2
    requires x < y < |SectorList(b, c)|
    ensures SectorList(b, c)[x] != SectorList(b, c)[y]
  {
    hide SectorList, FirstDataSector, Below64K;
    var k, i := Split(x, |c|, b.sectorsPerCluster);
    var l, j := Split(y, |c|, b.sectorsPerCluster);
    OneSector(b, fat, c, k, i);
    OneSector(b, fat, c, l, j);
    PairApart(fat, c, first, b.sectorsPerCluster, k, i, l, j);
  }
}
