/** Enumeration of a FAT12 directory: the expansion of its chain, the resumable scan, and file names. */
module Fat12Directory {
  import opened Options
  import opened Fat12Fat
  import opened Fat12Volume

  /** Name in eleven characters, attribute byte, size and first cluster. */
  datatype DirEntry = DirEntry(name: seq<Byte>, attribute: Byte, size: nat, cluster: nat)

  type Block = s: seq<DirEntry> | |s| == 16 witness seq(16, _ => DirEntry(seq(11, _ => 0), 0, 0, 0))

  /** The first character tells what an entry is; an entry without one counts as the end. */
  function Mark(e: DirEntry): Byte { if e.name == [] then 0x00 else e.name[0] }

  predicate IsEnd(e: DirEntry) { Mark(e) == 0x00 }

  predicate IsSkipped(e: DirEntry) { Mark(e) == 0x0E || Mark(e) == 0xE5 }

  // ---- What an enumeration is to yield ----

  /** All entries of the sectors in order. */
  ghost function Listing(disk: nat -> Block, sectors: seq<nat>): (r: seq<DirEntry>)
    ensures |r| == 16 * |sectors|
    ensures forall k | 0 <= k < |r| :: r[k] == disk(sectors[k / 16])[k % 16]
  {
    seq(16 * |sectors|, k requires 0 <= k < 16 * |sectors| => disk(sectors[k / 16])[k % 16])
  }

  /** The entries before the first end mark. */
  ghost function BeforeEnd(l: seq<DirEntry>): seq<DirEntry> {
    if l == [] || IsEnd(l[0]) then [] else [l[0]] + BeforeEnd(l[1..])
  }

  ghost function Kept(l: seq<DirEntry>): seq<DirEntry> {
    if l == [] then [] else (if IsSkipped(l[0]) then [] else [l[0]]) + Kept(l[1..])
  }

  ghost function Live(l: seq<DirEntry>): seq<DirEntry> {
    Kept(BeforeEnd(l))
  }

  /** One call: the entry it yields, if any, and the position it leaves. */
  ghost function NextResult(l: seq<DirEntry>, index: nat): (r: (Option<DirEntry>, nat))
    decreases |l| - index
  {
    if index >= |l| then (None, index)
    else if IsEnd(l[index]) then (None, |l|)
    else if IsSkipped(l[index]) then NextResult(l, index + 1)
    else (Some(l[index]), index + 1)
  }

  /** The results of `n` calls from a position on. */
  ghost function Results(l: seq<DirEntry>, index: nat, n: nat): (r: seq<Option<DirEntry>>)
    ensures |r| == n
    decreases n
  {
    if n == 0 then []
    else
      var r := NextResult(l, index);
      [r.0] + Results(l, r.1, n - 1)
  }

  ghost function Rest(l: seq<DirEntry>, index: nat): seq<DirEntry> {
    if index < |l| then l[index..] else []
  }

  /** A call yields the first live entry that is left, and leaves the others. */
  lemma {:induction false} NextTakesLive(l: seq<DirEntry>, index: nat)
    ensures var (e, index') := NextResult(l, index);
      var live := Live(Rest(l, index));
      if live == [] then e == None && Live(Rest(l, index')) == []
      else e == Some(live[0]) && Live(Rest(l, index')) == live[1..]
    decreases |l| - index
  {
    if index < |l| {
      assert l[index..][1..] == Rest(l, index + 1);
      if !IsEnd(l[index]) {
        assert BeforeEnd(l[index..])[0] == l[index] && BeforeEnd(l[index..])[1..] == BeforeEnd(Rest(l, index + 1));
        if IsSkipped(l[index]) { NextTakesLive(l, index + 1); }
      }
    }
  }

  /** From any position, repeated calls yield the live entries that are left, in order, and then nothing for ever. */
  lemma {:induction false} EnumerationIs(l: seq<DirEntry>, index: nat, n: nat, k: nat)
    requires k < n
    ensures var live := Live(Rest(l, index));
      Results(l, index, n)[k] == if k < |live| then Some(live[k]) else None
    decreases n
  {
    NextTakesLive(l, index);
    if k > 0 {
      EnumerationIs(l, NextResult(l, index).1, n - 1, k - 1);
    }
  }

  /** No name up to this one begins with 0x00, and this one begins neither with 0x0E nor with 0xE5. */
  ghost predicate Alive(l: seq<DirEntry>, k: nat)
    requires k < |l| && forall j | 0 <= j < |l| :: |l[j].name| == 11
  {
    (forall j | 0 <= j <= k :: l[j].name[0] != 0x00) && l[k].name[0] != 0x0E && l[k].name[0] != 0xE5
  }

  lemma AliveBehind(l: seq<DirEntry>, k: nat)
    requires 0 < k < |l| && (forall j | 0 <= j < |l| :: |l[j].name| == 11) && l[0].name[0] != 0x00
    ensures Alive(l, k) <==> Alive(l[1..], k - 1)
  {
    if Alive(l[1..], k - 1) {
      forall j | 1 <= j <= k ensures l[j].name[0] != 0x00 { assert l[1..][j - 1] == l[j]; }
    }
  }

  /** The places of the live entries, in order. */
  ghost function Places(l: seq<DirEntry>, at: seq<nat>): seq<DirEntry>
    requires forall i | 0 <= i < |at| :: at[i] < |l|
  {
    seq(|at|, i requires 0 <= i < |at| => l[at[i]])
  }

  /** The live entries are, in order, those that are alive. */
  lemma {:induction false} LiveEntries(l: seq<DirEntry>) returns (at: seq<nat>)
    requires forall k | 0 <= k < |l| :: |l[k].name| == 11
    ensures (forall i | 0 <= i < |at| :: at[i] < |l|) && Live(l) == Places(l, at)
    ensures forall i, j | 0 <= i < j < |at| :: at[i] < at[j]
    ensures forall k: nat | k < |l| :: k in at <==> Alive(l, k)
    decreases |l|
  {
    hide Alive, Live, Places;
    if l == [] || l[0].name[0] == 0x00 {
      at := [];
      NoneAlive(l);
    } else {
      var rest := LiveEntries(l[1..]);
      at := PlacesBehind(l, rest);
      forall k: nat | k < |l| ensures k in at <==> Alive(l, k) {
        if k > 0 { AliveBehind(l, k); } else { FirstAlive(l); }
      }
    }
  }

  lemma NoneAlive(l: seq<DirEntry>)
    requires (forall k | 0 <= k < |l| :: |l[k].name| == 11) && (l == [] || l[0].name[0] == 0x00)
    ensures Live(l) == Places(l, []) && forall k: nat | k < |l| :: !Alive(l, k)
  {}

  lemma FirstAlive(l: seq<DirEntry>)
    requires l != [] && forall k | 0 <= k < |l| :: |l[k].name| == 11
    ensures Alive(l, 0) <==> l[0].name[0] != 0x00 && l[0].name[0] != 0x0E && l[0].name[0] != 0xE5
  {}

  /** The places behind the first entry, and that of the first entry if it is not skipped. */
  lemma PlacesBehind(l: seq<DirEntry>, rest: seq<nat>) returns (at: seq<nat>)
    requires l != [] && |l[0].name| == 11 && l[0].name[0] != 0x00
    requires (forall i | 0 <= i < |rest| :: rest[i] < |l[1..]|) && Live(l[1..]) == Places(l[1..], rest)
    requires forall i, j | 0 <= i < j < |rest| :: rest[i] < rest[j]
    ensures (forall i | 0 <= i < |at| :: at[i] < |l|) && Live(l) == Places(l, at)
    ensures forall i, j | 0 <= i < j < |at| :: at[i] < at[j]
    ensures forall k: nat | 0 < k < |l| :: k in at <==> k - 1 in rest
    ensures 0 in at <==> l[0].name[0] != 0x0E && l[0].name[0] != 0xE5
  {
    var moved := seq<nat>(|rest|, i requires 0 <= i < |rest| => rest[i] + 1);
    at := (if l[0].name[0] != 0x0E && l[0].name[0] != 0xE5 then [0] else []) + moved;
    assert BeforeEnd(l) == [l[0]] + BeforeEnd(l[1..]) && BeforeEnd(l)[1..] == BeforeEnd(l[1..]);
    assert Places(l, moved) == Live(l[1..]);
    assert Live(l) == Places(l, at);
    Moved(rest, moved);
  }

  lemma Moved(rest: seq<nat>, moved: seq<nat>)
    requires |moved| == |rest| && forall i | 0 <= i < |rest| :: moved[i] == rest[i] + 1
    ensures forall k: nat | k > 0 :: k in moved <==> k - 1 in rest
  {
    forall k: nat | k > 0 && k - 1 in rest ensures k in moved {
      var i :| 0 <= i < |rest| && rest[i] == k - 1;
      assert moved[i] == k;
    }
  }

  // ---- The enumerator ----

  /** `push_back` of the sectors of one cluster, each cut to 16 bits. */
  method AddCluster(b: BootSector, cluster: nat, sectors: seq<nat>) returns (r: seq<nat>)
    requires b.bytesPerSector > 0 && cluster != 1
    ensures r == sectors + ClusterSectors(b, cluster, b.sectorsPerCluster)
  {
    var sector := SectorFromCluster(b, cluster).number;
    r := sectors;
    for i := 0 to b.sectorsPerCluster
      invariant r == sectors + ClusterSectors(b, cluster, i)
    {
      r := r + [Narrow(sector + i)];
    }
  }

  /** The sectors of a chain, or how the expansion broke off. */
  datatype Expansion = Sectors(list: seq<nat>) | Panicked | ReadOutside

  /** What the expansion is to come to, given what becomes of the walk. */
  ghost predicate Matches(b: BootSector, r: Expansion, fate: Fate)
    requires b.bytesPerSector > 0
  {
    match fate
    case Ends(c) => (forall k | 0 <= k < |c| :: c[k] != 1) && r == Sectors(SectorList(b, c))
    case Panics => r == Panicked
    case Leaves => r == ReadOutside
    case Circles => false
  }

  /**
    The loop of the constructor. It ends for every walk but one that never stops, which is one that
    has not stopped after as many links as the table has entries.
  */
  method Expand(b: BootSector, table: Table, first: nat) returns (r: Expansion)
    requires b.bytesPerSector > 0 && |table.fat| <= 0x10000 && first < 0x10000
    requires !FateOf(table.fat, first, |table.fat|).Circles?
    ensures Matches(b, r, FateOf(table.fat, first, |table.fat|))
  {
    hide SectorList, SectorFromCluster, ClusterSectors, Narrow, Link, FateOf, Behind;
    var sectors: seq<nat> := [];
    var cluster: nat := first;
    ghost var done: seq<nat>, fuel: nat := [], |table.fat|;
    NoSectors(b, FateOf(table.fat, first, |table.fat|));
    while true
      invariant cluster < 0x10000 && (forall k | 0 <= k < |done| :: done[k] != 1) && sectors == SectorList(b, done)
      invariant FateOf(table.fat, first, |table.fat|) == Behind(done, FateOf(table.fat, cluster, fuel))
      decreases fuel
    {
      BrokenWalk(table.fat, cluster, fuel, done);
      if cluster == 1 { return Panicked; }
      sectors := AddCluster(b, cluster, sectors);
      SectorListNext(b, done, cluster);
      var found, next := FindNext(table, cluster);
      if !found { return if cluster > |table.fat| then Panicked else ReadOutside; }
      StepOfWalk(table.fat, cluster, fuel, done);
      done := done + [cluster];
      cluster := next;
      if EndMark(cluster) { return Sectors(sectors); }
      fuel := fuel - 1;
    }
  }

  lemma NoSectors(b: BootSector, fate: Fate)
    requires b.bytesPerSector > 0
    ensures SectorList(b, []) == [] && Behind([], fate) == fate
  {
    if fate.Ends? { assert [] + fate.chain == fate.chain; }
  }

  /** `next_cluster`, which may break the expansion off. */
  method FindNext(table: Table, cluster: nat) returns (found: bool, next: nat)
    requires cluster < 0x10000
    ensures found <==> cluster < |table.fat|
    ensures found ==> next == Link(table.fat, cluster) < 0x10000
  {
    var r := table.NextCluster(cluster as ClusterId);
    return r.Next?, if r.Next? then r.cluster as nat else 0;
  }

  lemma BrokenWalk(fat: seq<ClusterId>, cluster: nat, fuel: nat, done: seq<nat>)
    ensures cluster == 1 || cluster > |fat| ==> Behind(done, FateOf(fat, cluster, fuel)) == Panics
    ensures cluster != 1 && cluster == |fat| ==> Behind(done, FateOf(fat, cluster, fuel)) == Leaves
  {}

  lemma StepOfWalk(fat: seq<ClusterId>, cluster: nat, fuel: nat, done: seq<nat>)
    requires cluster < |fat| && cluster != 1 && !Behind(done, FateOf(fat, cluster, fuel)).Circles?
    ensures if EndMark(Link(fat, cluster)) then Behind(done, FateOf(fat, cluster, fuel)) == Ends(done + [cluster])
            else fuel > 0 && Behind(done, FateOf(fat, cluster, fuel)) ==
                             Behind(done + [cluster], FateOf(fat, Link(fat, cluster), fuel - 1))
  {
    if !EndMark(Link(fat, cluster)) {
      var rest := FateOf(fat, Link(fat, cluster), fuel - 1);
      if rest.Ends? { assert done + ([cluster] + rest.chain) == done + [cluster] + rest.chain; }
    }
  }

  lemma SectorListNext(b: BootSector, c: seq<nat>, cluster: nat)
    requires b.bytesPerSector > 0 && cluster != 1 && forall j | 0 <= j < |c| :: c[j] != 1
    ensures SectorList(b, c + [cluster]) == SectorList(b, c) + ClusterSectors(b, cluster, b.sectorsPerCluster)
  {
    assert (c + [cluster])[..|c|] == c;
  }

  class DirectoryEnum {
    var sectors: seq<nat>
    var index: nat
    /** How the construction went; only an enumerator of sectors is ever used. */
    const expansion: Expansion

    constructor (b: BootSector, table: Table, first: nat)
      requires b.bytesPerSector > 0 && |table.fat| <= 0x10000 && first < 0x10000
      requires !FateOf(table.fat, first, |table.fat|).Circles?
      ensures Matches(b, expansion, FateOf(table.fat, first, |table.fat|)) && index == 0
      ensures expansion.Sectors? ==> sectors == expansion.list
    {
      var r := Expand(b, table, first);
      expansion := r;
      sectors, index := if r.Sectors? then r.list else [], 0;
    }

    method Reset()
      modifies this`index
      ensures index == 0
    {
      index := 0;
    }

    /** `next` with its cache of one sector, for which each sector it comes to is read once. */
    method Next(disk: nat -> Block) returns (file: Option<DirEntry>, ghost readCount: nat)
      modifies this`index
      ensures (file, index) == NextResult(Listing(disk, sectors), old(index))
      ensures file.Some? ==> readCount == (index - 1) / 16 - old(index) / 16 + 1
      ensures old(index) < |sectors| * 16 ==> 1 <= readCount <= |sectors| - old(index) / 16
      ensures old(index) >= |sectors| * 16 ==> readCount == 0
    {
      hide Listing, Mark;
      readCount := 0;
      ghost var l := Listing(disk, sectors);
      var cached: Option<nat> := None;
      var cache: Block := seq(16, _ => DirEntry(seq(11, _ => 0), 0, 0, 0));
      var count := |sectors| * 16;
      while index < count
        invariant NextResult(l, index) == NextResult(l, old(index))
        invariant cached.Some? ==> cached.value < |sectors| && cache == disk(sectors[cached.value])
        invariant old(index) <= index && (cached.None? <==> index == old(index)) && (cached.None? ==> readCount == 0)
        invariant cached.Some? ==> cached.value == (index - 1) / 16 && readCount == cached.value - old(index) / 16 + 1
        decreases count - index
      {
        var sectorIndex, entryIndex := index / 16, index % 16;
        if cached != Some(sectorIndex) {
          cache := disk(sectors[sectorIndex]);
          cached := Some(sectorIndex);
          readCount := readCount + 1;
        }
        var entry := cache[entryIndex];
        if Mark(entry) == 0x00 {
          index := count;
          return None, readCount;
        }
        if Mark(entry) == 0x0E || Mark(entry) == 0xE5 {
          index := index + 1;
          continue;
        }
        index := index + 1;
        return Some(entry), readCount;
      }
      return None, readCount;
    }
  }

  // ---- File names ----

  const SPACE: Byte := 0x20
  const DOT: Byte := 0x2E

  /** The part without its spaces. */
  ghost function Unspaced(s: seq<Byte>): (r: seq<Byte>)
    ensures |r| <= |s|
  {
    if s == [] then [] else Unspaced(s[..|s| - 1]) + if s[|s| - 1] == SPACE then [] else [s[|s| - 1]]
  }

  /** Base and extension without spaces, with a dot between; a dot at the very end becomes a terminator. */
  ghost function NameBuffer(fn: seq<Byte>): (r: seq<Byte>)
    requires |fn| == 11
    ensures |r| <= 12
  {
    var s := Unspaced(fn[..8]) + [DOT] + Unspaced(fn[8..]);
    if s[|s| - 1] == DOT then s[..|s| - 1] + [0] else s
  }

  lemma {:induction false} Padded(s: seq<Byte>, n: nat)
    requires forall k | 0 <= k < |s| :: s[k] != 0x20
    ensures Unspaced(s + seq(n, _ => 0x20)) == s
    decreases n, |s|
  {
    var t := s + seq(n, _ => 0x20);
    if n > 0 {
      assert t[..|t| - 1] == s + seq(n - 1, _ => 0x20);
      Padded(s, n - 1);
    } else if s != [] {
      assert t == s && t[..|t| - 1] == s[..|s| - 1] + seq(0, _ => 0x20);
      Padded(s[..|s| - 1], 0);
      assert s == s[..|s| - 1] + [s[|s| - 1]];
    }
  }

  /** A base and an extension without spaces, each padded with spaces, are read as base, dot and extension. */
  lemma NameOfFile(base: seq<Byte>, ext: seq<Byte>)
    requires |base| <= 8 && |ext| <= 3 && (forall k | 0 <= k < |base| :: base[k] != 0x20)
    requires forall k | 0 <= k < |ext| :: ext[k] != 0x20 && ext[k] != 0x2E
    ensures var fn := base + seq(8 - |base|, _ => 0x20) + (ext + seq(3 - |ext|, _ => 0x20));
      NameBuffer(fn) == if ext == [] then base + [0x00] else base + [0x2E] + ext
  {
    hide Unspaced;
    var fn := base + seq(8 - |base|, _ => 0x20) + (ext + seq(3 - |ext|, _ => 0x20));
    assert fn[..8] == base + seq(8 - |base|, _ => 0x20) && fn[8..] == ext + seq(3 - |ext|, _ => 0x20);
    Padded(base, 8 - |base|);
    Padded(ext, 3 - |ext|);
  }

  method ExtractPart(fn: seq<Byte>, src: nat, dest: array<Byte>, pos: nat, count: nat) returns (end: nat)
    requires src + count <= |fn| && pos + count <= dest.Length
    modifies dest
    ensures end == pos + |Unspaced(fn[src..src + count])| <= dest.Length
    ensures dest[..pos] == old(dest[..pos]) && dest[pos..end] == Unspaced(fn[src..src + count])
    ensures forall k | end <= k < dest.Length :: dest[k] == old(dest[k])
  {
    end := pos;
    assert fn[src..src] == [];
    for i := 0 to count
      invariant end == pos + |Unspaced(fn[src..src + i])| && end <= pos + i
      invariant dest[..pos] == old(dest[..pos]) && dest[pos..end] == Unspaced(fn[src..src + i])
      invariant forall k | end <= k < dest.Length :: dest[k] == old(dest[k])
    {
      var ch := fn[src + i];
      assert fn[src..src + i + 1][..i] == fn[src..src + i];
      if ch != SPACE {
        dest[end] := ch;
        end := end + 1;
      }
    }
  }

  /** Base, dot and extension into a cleared buffer. */
  method CopyParts(fn: seq<Byte>, name: array<Byte>) returns (pos: nat)
    requires |fn| == 11 && name.Length == 13 && forall k | 0 <= k < 13 :: name[k] == 0
    modifies name
    ensures 0 < pos <= 12 && name[..pos] == Unspaced(fn[..8]) + [DOT] + Unspaced(fn[8..])
    ensures forall k | pos <= k < 13 :: name[k] == 0
  {
    hide Unspaced;
    assert fn[0..0 + 8] == fn[..8] && fn[8..8 + 3] == fn[8..];
    var base := ExtractPart(fn, 0, name, 0, 8);
    name[base] := DOT;
    assert name[..base] == Unspaced(fn[..8]);
    pos := ExtractPart(fn, 8, name, base + 1, 3);
    assert name[..base + 1] == Unspaced(fn[..8]) + [DOT];
    assert name[..pos] == name[..base + 1] + name[base + 1..pos];
  }

  lemma Terminated(fn: seq<Byte>, all: seq<Byte>, buffer: seq<Byte>)
    requires |fn| == 11 && all == Unspaced(fn[..8]) + [DOT] + Unspaced(fn[8..])
    requires |buffer| == 13 && buffer[..|all|] == all && forall k | |all| <= k < 13 :: buffer[k] == 0
    ensures buffer[|all| - 1] == all[|all| - 1] && buffer[12] == 0
    ensures var r := NameBuffer(fn);
      (if all[|all| - 1] == DOT then buffer[|all| - 1 := 0] else buffer) == r + seq(13 - |r|, _ => 0)
  {
    hide Unspaced;
    assert buffer == all + seq(13 - |all|, _ => 0);
  }

  /** The thirteen bytes are never overrun, and the name is always terminated. */
  method ExtractFileName(fn: seq<Byte>) returns (name: array<Byte>)
    requires |fn| == 11
    ensures fresh(name) && name.Length == 13
    ensures name[..] == NameBuffer(fn) + seq(13 - |NameBuffer(fn)|, _ => 0) && name[12] == 0
  {
    hide Unspaced;
    name := new Byte[13](_ => 0);
    var pos := CopyParts(fn, name);
    Terminated(fn, name[..pos], name[..]);
    if name[pos - 1] == DOT {
      name[pos - 1] := 0;
    }
  }
}
