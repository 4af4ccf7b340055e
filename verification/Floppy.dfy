/** The floppy driver's block reads through a cache of one cylinder. */
module Floppy {
  import opened Options
  import opened Arithmetic

  type Byte = bv8

  const BLOCK: nat := 512

  datatype DriveKind = HD12 | HD144 | Unsupported

  // ---- The disk ----

  /** A track of a 1.2 MB disk has 15 sectors and one of a 1.44 MB disk 18; a cylinder has two tracks. */
  function SectorsPerTrack(kind: DriveKind): nat {
    match kind
    case HD12 => 15
    case HD144 => 18
    case Unsupported => 0
  }

  /** Bytes of a cylinder of the disk. */
  function TransferSize(kind: DriveKind): nat { 2 * SectorsPerTrack(kind) * 512 }

  /**
    The controller: the 512 bytes of each sector by cylinder, head and place on the track, and for
    each command it receives whether it fails and what a failed transfer leaves in the buffer.
  */
  datatype Controller =
    Controller(sectors: (nat, nat, nat) -> seq<Byte>, fails: nat -> bool, debris: nat -> seq<Byte>)

  ghost predicate Sized(c: Controller, kind: DriveKind) {
    && (forall cylinder, head, sector :: |c.sectors(cylinder, head, sector)| == 512)
    && forall k :: |c.debris(k)| == TransferSize(kind)
  }

  /** What the read of a cylinder transfers: the sectors of the first head, then those of the second. */
  function Transfer(c: Controller, kind: DriveKind, cylinder: nat): (r: seq<Byte>)
    requires kind != Unsupported && Sized(c, kind)
    ensures |r| == TransferSize(kind)
  {
    seq(TransferSize(kind), i requires 0 <= i < TransferSize(kind) =>
      c.sectors(cylinder, i / 512 / SectorsPerTrack(kind), i / 512 % SectorsPerTrack(kind))[i % 512])
  }

  /** The cylinder of a block, when blocks are numbered track by track and cylinder by cylinder. */
  function CylinderOf(kind: DriveKind, block: nat): nat
    requires kind != Unsupported
  {
    block / SectorsPerTrack(kind) / 2
  }

  /** Byte `i` of the whole disk, sector after sector in the order of the blocks. */
  function FlatByte(c: Controller, kind: DriveKind, i: nat): Byte
    requires kind != Unsupported && Sized(c, kind)
  {
    var block, spt := i / 512, SectorsPerTrack(kind);
    c.sectors(CylinderOf(kind, block), block / spt % 2, block % spt)[i % 512]
  }

  function FlatSlice(c: Controller, kind: DriveKind, first: nat, count: nat): (r: seq<Byte>)
    requires kind != Unsupported && Sized(c, kind)
    ensures |r| == count * 512
  {
    seq(count * 512, i requires 0 <= i < count * 512 => FlatByte(c, kind, first * 512 + i))
  }

  /** The block of a place on the disk is that sector. */
  lemma SectorOfBlock(c: Controller, kind: DriveKind, cylinder: nat, head: nat, sector: nat)
    requires kind != Unsupported && Sized(c, kind) && head < 2 && sector < if kind == HD12 then 15 else 18
    ensures FlatSlice(c, kind, (2 * cylinder + head) * (if kind == HD12 then 15 else 18) + sector, 1) ==
            c.sectors(cylinder, head, sector)
  {
    var spt := if kind == HD12 then 15 else 18;
    var block := (2 * cylinder + head) * spt + sector;
    ModUnique(block, 2 * cylinder + head, spt, sector);
    forall i | 0 <= i < 512 ensures FlatByte(c, kind, block * 512 + i) == c.sectors(cylinder, head, sector)[i] {
      ModUnique(block * 512 + i, block, 512, i);
    }
  }

  /** 80 cylinders of either disk, and the bytes that the controller is always programmed to transfer. */
  lemma Capacity()
    ensures 80 * TransferSize(HD12) == 1228800 && 80 * TransferSize(HD144) == 1474560
    ensures forall kind | kind != Unsupported ::
              CylinderSize(kind) == TransferSize(kind) && (CylinderSize(kind) == 0x4800 <==> kind == HD144)
  {}

  // ---- The driver ----

  function SectorsPerCylinder(kind: DriveKind): nat {
    match kind
    case HD12 => 15 * 2
    case HD144 => 18 * 2
    case Unsupported => 0
  }

  function CylinderSize(kind: DriveKind): nat { SectorsPerCylinder(kind) * BLOCK }

  /** The recorded cylinder, the buffer, and how many commands the controller has received. */
  datatype State = State(cached: Option<nat>, cache: seq<Byte>, calls: nat)

  /** Whether a read went through, the bytes it delivered, and the state it leaves. */
  datatype Outcome = Outcome(ok: bool, data: seq<Byte>, state: State)

  /** The state once the cylinder has been asked for; it is recorded whether or not the read failed. */
  function Fetch(c: Controller, kind: DriveKind, s: State, cylinder: nat): (bool, State)
    requires kind != Unsupported && Sized(c, kind)
  {
    if s.cached == Some(cylinder) then (true, s)
    else
      var failed := c.fails(s.calls);
      (!failed, State(Some(cylinder), if failed then c.debris(s.calls) else Transfer(c, kind, cylinder), s.calls + 1))
  }

  function ReadOne(c: Controller, kind: DriveKind, s: State, block: nat): (r: Outcome)
    requires kind != Unsupported && Sized(c, kind) && |s.cache| == TransferSize(kind)
    ensures |r.state.cache| == TransferSize(kind) && |r.data| == if r.ok then BLOCK else 0
  {
    var (ok, s') := Fetch(c, kind, s, block / SectorsPerCylinder(kind));
    var offset := block % SectorsPerCylinder(kind) * BLOCK;
    Outcome(ok, if ok then s'.cache[offset..offset + BLOCK] else [], s')
  }

  /** Blocks one after the other, up to the first failure. */
  function ReadMany(c: Controller, kind: DriveKind, s: State, first: nat, count: nat): (r: Outcome)
    requires kind != Unsupported && Sized(c, kind) && |s.cache| == TransferSize(kind)
    ensures |r.state.cache| == TransferSize(kind) && |r.data| <= count * BLOCK && (r.ok ==> |r.data| == count * BLOCK)
    decreases count
  {
    if count == 0 then Outcome(true, [], s)
    else
      var before := ReadMany(c, kind, s, first, count - 1);
      if !before.ok then before
      else
        var last := ReadOne(c, kind, before.state, first + count - 1);
        Outcome(last.ok, before.data + last.data, last.state)
  }

  // ---- Against the disk ----

  /** The buffer holds the recorded cylinder, or none is recorded. */
  ghost predicate CacheSound(c: Controller, kind: DriveKind, s: State)
    requires kind != Unsupported && Sized(c, kind)
  {
    s.cached.Some? ==> s.cache == Transfer(c, kind, s.cached.value)
  }

  ghost predicate NoFailure(c: Controller, start: nat, end: nat) {
    forall k | start <= k < end :: !c.fails(k)
  }

  /** The driver divides by sectors of a cylinder; the disk has tracks and heads. */
  lemma DriverDivides(kind: DriveKind, block: nat)
    requires kind != Unsupported
    ensures var s, spt := SectorsPerCylinder(kind), SectorsPerTrack(kind);
      && block / s == CylinderOf(kind, block) && (block % s + 1) * BLOCK <= TransferSize(kind)
      && block % s / spt == block / spt % 2 && block % s % spt == block % spt
  {
    var s, spt := SectorsPerCylinder(kind), SectorsPerTrack(kind);
    var q, h, r := block / spt / 2, block / spt % 2, block % spt;
    ModUnique(block, q, s, h * spt + r);
    ModUnique(h * spt + r, h, spt, r);
  }

  lemma BlockOfDisk(c: Controller, kind: DriveKind, block: nat)
    requires kind != Unsupported && Sized(c, kind)
    ensures var s := SectorsPerCylinder(kind);
      && block / s == CylinderOf(kind, block) && (block % s + 1) * BLOCK <= TransferSize(kind)
      && Transfer(c, kind, block / s)[block % s * BLOCK..block % s * BLOCK + BLOCK] == FlatSlice(c, kind, block, 1)
  {
    hide SectorsPerTrack, CylinderOf;
    var s := SectorsPerCylinder(kind);
    DriverDivides(kind, block);
    var slice := Transfer(c, kind, block / s)[block % s * BLOCK..block % s * BLOCK + BLOCK];
    forall i | 0 <= i < BLOCK ensures slice[i] == FlatSlice(c, kind, block, 1)[i] {
      ModUnique(block * 512 + i, block, 512, i);
      ModUnique(block % s * 512 + i, block % s, 512, i);
    }
  }

  lemma OneSound(c: Controller, kind: DriveKind, s: State, block: nat)
    requires kind != Unsupported && Sized(c, kind) && |s.cache| == TransferSize(kind) && CacheSound(c, kind, s)
    requires NoFailure(c, s.calls, ReadOne(c, kind, s, block).state.calls)
    ensures var r := ReadOne(c, kind, s, block);
      r.ok && CacheSound(c, kind, r.state) && r.state.calls >= s.calls && r.data == FlatSlice(c, kind, block, 1)
  {
    BlockOfDisk(c, kind, block);
  }

  lemma {:induction false} CallsGrow(c: Controller, kind: DriveKind, s: State, first: nat, count: nat)
    requires kind != Unsupported && Sized(c, kind) && |s.cache| == TransferSize(kind)
    ensures ReadMany(c, kind, s, first, count).state.calls >= s.calls
    ensures count > 0 ==>
              ReadMany(c, kind, s, first, count - 1).state.calls <= ReadMany(c, kind, s, first, count).state.calls
    decreases count
  {
    if count > 0 { CallsGrow(c, kind, s, first, count - 1); }
  }

  /** As long as no command fails, a read delivers the slice of the disk and leaves the cache sound. */
  lemma {:induction false} ManySound(c: Controller, kind: DriveKind, s: State, first: nat, count: nat)
    requires kind != Unsupported && Sized(c, kind) && |s.cache| == TransferSize(kind) && CacheSound(c, kind, s)
    requires NoFailure(c, s.calls, ReadMany(c, kind, s, first, count).state.calls)
    ensures var r := ReadMany(c, kind, s, first, count);
      r.ok && CacheSound(c, kind, r.state) && r.data == FlatSlice(c, kind, first, count)
    decreases count
  {
    hide FlatSlice, Fetch, CacheSound;
    if count == 0 {
      assert FlatSlice(c, kind, first, 0) == [];
    } else {
      CallsGrow(c, kind, s, first, count);
      CallsGrow(c, kind, s, first, count - 1);
      ManySound(c, kind, s, first, count - 1);
      OneSound(c, kind, ReadMany(c, kind, s, first, count - 1).state, first + count - 1);
      SliceGrows(c, kind, first, count);
    }
  }

  lemma SoundIfUnfailing(c: Controller, kind: DriveKind, s: State, first: nat, count: nat)
    requires kind != Unsupported && Sized(c, kind) && |s.cache| == TransferSize(kind)
    ensures var r := ReadMany(c, kind, s, first, count);
      CacheSound(c, kind, s) && NoFailure(c, s.calls, r.state.calls) ==>
        r.ok && r.data == FlatSlice(c, kind, first, count)
  {
    hide CacheSound, NoFailure, FlatSlice, ReadMany;
    if CacheSound(c, kind, s) && NoFailure(c, s.calls, ReadMany(c, kind, s, first, count).state.calls) {
      ManySound(c, kind, s, first, count);
    }
  }

  lemma SliceGrows(c: Controller, kind: DriveKind, first: nat, count: nat)
    requires kind != Unsupported && Sized(c, kind) && count > 0
    ensures FlatSlice(c, kind, first, count) ==
            FlatSlice(c, kind, first, count - 1) + FlatSlice(c, kind, first + count - 1, 1)
  {}

  // ---- Sequences of reads ----

  datatype Request = Request(first: nat, count: nat)

  ghost function After(c: Controller, kind: DriveKind, s: State, reqs: seq<Request>): (t: State)
    requires kind != Unsupported && Sized(c, kind) && |s.cache| == TransferSize(kind)
    ensures |t.cache| == TransferSize(kind)
    decreases |reqs|
  {
    if reqs == [] then s
    else
      var t := After(c, kind, s, reqs[..|reqs| - 1]);
      ReadMany(c, kind, t, reqs[|reqs| - 1].first, reqs[|reqs| - 1].count).state
  }

  lemma {:induction false} SessionCalls(c: Controller, kind: DriveKind, s: State, reqs: seq<Request>)
    requires kind != Unsupported && Sized(c, kind) && |s.cache| == TransferSize(kind)
    ensures After(c, kind, s, reqs).calls >= s.calls
    decreases |reqs|
  {
    if reqs != [] {
      var n := |reqs| - 1;
      SessionCalls(c, kind, s, reqs[..n]);
      CallsGrow(c, kind, After(c, kind, s, reqs[..n]), reqs[n].first, reqs[n].count);
    }
  }

  /** After any reads without a failed command the next read succeeds and delivers the slice of the disk. */
  lemma {:induction false} UnfailingReads(c: Controller, kind: DriveKind, s: State, reqs: seq<Request>, next: Request)
    requires kind != Unsupported && Sized(c, kind) && |s.cache| == TransferSize(kind) && CacheSound(c, kind, s)
    requires NoFailure(c, s.calls, ReadMany(c, kind, After(c, kind, s, reqs), next.first, next.count).state.calls)
    ensures var r := ReadMany(c, kind, After(c, kind, s, reqs), next.first, next.count);
      r.ok && CacheSound(c, kind, r.state) && r.data == FlatSlice(c, kind, next.first, next.count)
    decreases |reqs|
  {
    CallsGrow(c, kind, After(c, kind, s, reqs), next.first, next.count);
    SessionCalls(c, kind, s, reqs);
    if reqs != [] {
      var n := |reqs| - 1;
      UnfailingReads(c, kind, s, reqs[..n], reqs[n]);
    }
    ManySound(c, kind, After(c, kind, s, reqs), next.first, next.count);
  }

  // ---- Reads that fail ----

  /** The cylinder of the block at which a read stopped. */
  function StoppedIn(kind: DriveKind, r: Outcome, first: nat): nat
    requires kind != Unsupported
  {
    CylinderOf(kind, first + |r.data| / BLOCK)
  }

  /** What a read delivered is the beginning of the slice of the disk that was asked for. */
  ghost predicate Right(c: Controller, kind: DriveKind, r: Outcome, first: nat)
    requires kind != Unsupported && Sized(c, kind)
  {
    r.data == FlatSlice(c, kind, first, |r.data| / BLOCK)
  }

  /** The cylinder of the block is not the one that the last failure left recorded. */
  ghost predicate Usable(c: Controller, kind: DriveKind, s: State, cylinder: nat)
    requires kind != Unsupported && Sized(c, kind)
  {
    CacheSound(c, kind, s) || s.cached != Some(cylinder)
  }

  /** One read from a usable state: what it delivers is right, and only its own failure leaves the cache unsound. */
  lemma {:induction false} ReadIsRight(c: Controller, kind: DriveKind, s: State, first: nat, count: nat)
    requires kind != Unsupported && Sized(c, kind) && |s.cache| == TransferSize(kind) && count > 0
    requires Usable(c, kind, s, CylinderOf(kind, first))
    ensures var r := ReadMany(c, kind, s, first, count);
      Right(c, kind, r, first) && (r.ok ==> CacheSound(c, kind, r.state)) && |r.data| % BLOCK == 0
    decreases count
  {
    hide FlatSlice, ReadOne, Fetch, CacheSound;
    var before := ReadMany(c, kind, s, first, count - 1);
    assert FlatSlice(c, kind, first, 0) == [];
    if count > 1 {
      ReadIsRight(c, kind, s, first, count - 1);
    } else {
      assert before == Outcome(true, [], s);
    }
    if before.ok {
      OneIsRight(c, kind, before.state, first + count - 1);
      SliceGrows(c, kind, first, count);
    }
  }

  lemma OneIsRight(c: Controller, kind: DriveKind, s: State, block: nat)
    requires kind != Unsupported && Sized(c, kind) && |s.cache| == TransferSize(kind)
    requires Usable(c, kind, s, CylinderOf(kind, block))
    ensures var r := ReadOne(c, kind, s, block);
      r.ok ==> CacheSound(c, kind, r.state) && r.data == FlatSlice(c, kind, block, 1)
  {
    hide FlatSlice;
    BlockOfDisk(c, kind, block);
  }

  /** A read that fails leaves the cylinder at which it stopped recorded, over what the failure left behind. */
  lemma {:induction false} FailureRecorded(c: Controller, kind: DriveKind, s: State, first: nat, count: nat)
    requires kind != Unsupported && Sized(c, kind) && |s.cache| == TransferSize(kind)
    ensures var r := ReadMany(c, kind, s, first, count);
      !r.ok ==> r.state.cached == Some(StoppedIn(kind, r, first)) && r.state.calls > 0 &&
                r.state.cache == c.debris(r.state.calls - 1)
    decreases count
  {
    hide ReadOne, Fetch, CylinderOf;
    if count > 0 {
      FailureRecorded(c, kind, s, first, count - 1);
      var before := ReadMany(c, kind, s, first, count - 1);
      if before.ok {
        assert |before.data| / BLOCK == count - 1;
        OneFailure(c, kind, before.state, first + count - 1);
      }
    }
  }

  lemma OneFailure(c: Controller, kind: DriveKind, s: State, block: nat)
    requires kind != Unsupported && Sized(c, kind) && |s.cache| == TransferSize(kind)
    ensures var r := ReadOne(c, kind, s, block);
      !r.ok ==> r.data == [] && r.state.cached == Some(CylinderOf(kind, block)) && r.state.calls > 0 &&
                r.state.cache == c.debris(r.state.calls - 1)
  {}

  /** The cylinder that the last read of any block failed in, if it failed. */
  ghost function FailedIn(c: Controller, kind: DriveKind, s: State, reqs: seq<Request>): Option<nat>
    requires kind != Unsupported && Sized(c, kind) && |s.cache| == TransferSize(kind)
    decreases |reqs|
  {
    if reqs == [] then None
    else
      var n := |reqs| - 1;
      var r := ReadMany(c, kind, After(c, kind, s, reqs[..n]), reqs[n].first, reqs[n].count);
      if reqs[n].count == 0 then FailedIn(c, kind, s, reqs[..n])
      else if r.ok then None
      else Some(StoppedIn(kind, r, reqs[n].first))
  }

  /** After a read that failed, the next block asked for lies in another cylinder. */
  ghost predicate Avoids(c: Controller, kind: DriveKind, s: State, reqs: seq<Request>)
    requires kind != Unsupported && Sized(c, kind) && |s.cache| == TransferSize(kind)
    decreases |reqs|
  {
    reqs != [] ==>
      var n := |reqs| - 1;
      && Avoids(c, kind, s, reqs[..n])
      && (reqs[n].count > 0 ==> FailedIn(c, kind, s, reqs[..n]) != Some(CylinderOf(kind, reqs[n].first)))
  }

  ghost predicate AllRight(c: Controller, kind: DriveKind, s: State, reqs: seq<Request>)
    requires kind != Unsupported && Sized(c, kind) && |s.cache| == TransferSize(kind)
    decreases |reqs|
  {
    reqs != [] ==>
      var n := |reqs| - 1;
      && AllRight(c, kind, s, reqs[..n])
      && Right(c, kind, ReadMany(c, kind, After(c, kind, s, reqs[..n]), reqs[n].first, reqs[n].count), reqs[n].first)
  }

  /** The cache is invisible to readers that avoid the cylinder of a failure: all that is ever delivered is right. */
  lemma {:induction false} CacheInvisible(c: Controller, kind: DriveKind, s: State, reqs: seq<Request>)
    requires kind != Unsupported && Sized(c, kind) && |s.cache| == TransferSize(kind) && CacheSound(c, kind, s)
    requires Avoids(c, kind, s, reqs)
    ensures AllRight(c, kind, s, reqs)
    ensures match FailedIn(c, kind, s, reqs)
      case None => CacheSound(c, kind, After(c, kind, s, reqs))
      case Some(cylinder) => After(c, kind, s, reqs).cached == Some(cylinder)
    decreases |reqs|
  {
    hide FlatSlice, CacheSound, StoppedIn;
    if reqs != [] {
      var n := |reqs| - 1;
      CacheInvisible(c, kind, s, reqs[..n]);
      var t := After(c, kind, s, reqs[..n]);
      if reqs[n].count > 0 {
        ReadIsRight(c, kind, t, reqs[n].first, reqs[n].count);
        FailureRecorded(c, kind, t, reqs[n].first, reqs[n].count);
      } else {
        assert FlatSlice(c, kind, reqs[n].first, 0) == [];
      }
    }
  }

  // ---- What a failure leaves in the buffer ----

  /** The same disk and the same failures, with other debris. */
  function WithDebris(c: Controller, debris: nat -> seq<Byte>): Controller {
    c.(debris := debris)
  }

  ghost predicate SizedDebris(debris: nat -> seq<Byte>, kind: DriveKind) {
    forall k :: |debris(k)| == TransferSize(kind)
  }

  /** The bytes do not matter to what is asked of the controller. */
  ghost predicate SameControl(s: State, s': State) {
    s'.cached == s.cached && s'.calls == s.calls
  }

  lemma {:induction false} ReadControl(c: Controller, c': Controller, kind: DriveKind, s: State, s': State,
                                       first: nat, count: nat)
    requires kind != Unsupported && Sized(c, kind) && c' == WithDebris(c, c'.debris) && Sized(c', kind)
    requires |s.cache| == |s'.cache| == TransferSize(kind) && SameControl(s, s')
    ensures var (r, r') := (ReadMany(c, kind, s, first, count), ReadMany(c', kind, s', first, count));
      SameControl(r.state, r'.state) && r'.ok == r.ok && |r'.data| == |r.data|
    decreases count
  {
    if count > 0 { ReadControl(c, c', kind, s, s', first, count - 1); }
  }

  lemma {:induction false} SessionControl(c: Controller, c': Controller, kind: DriveKind, s: State, reqs: seq<Request>)
    requires kind != Unsupported && Sized(c, kind) && c' == WithDebris(c, c'.debris) && Sized(c', kind)
    requires |s.cache| == TransferSize(kind)
    ensures SameControl(After(c, kind, s, reqs), After(c', kind, s, reqs))
    ensures FailedIn(c', kind, s, reqs) == FailedIn(c, kind, s, reqs)
    ensures Avoids(c', kind, s, reqs) == Avoids(c, kind, s, reqs)
    decreases |reqs|
  {
    if reqs != [] {
      var n := |reqs| - 1;
      SessionControl(c, c', kind, s, reqs[..n]);
      var (t, t') := (After(c, kind, s, reqs[..n]), After(c', kind, s, reqs[..n]));
      ReadControl(c, c', kind, t, t', reqs[n].first, reqs[n].count);
    }
  }

  function Flipped(bytes: seq<Byte>): (r: seq<Byte>)
    ensures |r| == |bytes| && forall i | 0 <= i < |r| :: r[i] != bytes[i]
  {
    seq(|bytes|, i requires 0 <= i < |bytes| => bytes[i] ^ 1)
  }

  /** A read that starts with the recorded cylinder begins with what the buffer holds. */
  lemma {:induction false} BeginsWithCache(c: Controller, kind: DriveKind, s: State, first: nat, count: nat)
    requires kind != Unsupported && Sized(c, kind) && |s.cache| == TransferSize(kind) && count > 0
    requires s.cached == Some(CylinderOf(kind, first))
    ensures var data := ReadMany(c, kind, s, first, count).data;
      |data| >= BLOCK && data[0] == s.cache[first % SectorsPerCylinder(kind) * BLOCK]
    decreases count
  {
    if count > 1 {
      BeginsWithCache(c, kind, s, first, count - 1);
    } else {
      assert ReadMany(c, kind, s, first, 0) == Outcome(true, [], s);
    }
  }

  lemma {:induction false} FailureHeld(c: Controller, kind: DriveKind, s: State, reqs: seq<Request>)
    requires kind != Unsupported && Sized(c, kind) && |s.cache| == TransferSize(kind)
    requires FailedIn(c, kind, s, reqs).Some?
    ensures var t := After(c, kind, s, reqs);
      t.cached == FailedIn(c, kind, s, reqs) && t.calls > 0 && t.cache == c.debris(t.calls - 1)
    decreases |reqs|
  {
    var n := |reqs| - 1;
    if reqs[n].count == 0 {
      FailureHeld(c, kind, s, reqs[..n]);
    } else {
      FailureRecorded(c, kind, After(c, kind, s, reqs[..n]), reqs[n].first, reqs[n].count);
    }
  }

  /** A reader that comes back to the cylinder of a failure is delivered wrong bytes for some debris. */
  lemma {:induction false} ComingBack(c: Controller, kind: DriveKind, s: State, reqs: seq<Request>)
    returns (debris: nat -> seq<Byte>)
    requires kind != Unsupported && Sized(c, kind) && |s.cache| == TransferSize(kind) && !Avoids(c, kind, s, reqs)
    ensures SizedDebris(debris, kind) && !AllRight(WithDebris(c, debris), kind, s, reqs)
    decreases |reqs|
  {
    var n := |reqs| - 1;
    if !Avoids(c, kind, s, reqs[..n]) {
      debris := ComingBack(c, kind, s, reqs[..n]);
    } else {
      var cylinder := CylinderOf(kind, reqs[n].first);
      var junk := Flipped(Transfer(c, kind, cylinder));
      debris := _ => junk;
      var c' := WithDebris(c, debris);
      SessionControl(c, c', kind, s, reqs[..n]);
      FailureHeld(c', kind, s, reqs[..n]);
      var t := After(c', kind, s, reqs[..n]);
      BeginsWithCache(c', kind, t, reqs[n].first, reqs[n].count);
      FirstByte(c', kind, reqs[n].first, |ReadMany(c', kind, t, reqs[n].first, reqs[n].count).data| / BLOCK);
    }
  }

  lemma FirstByte(c: Controller, kind: DriveKind, first: nat, count: nat)
    requires kind != Unsupported && Sized(c, kind) && count > 0
    ensures FlatSlice(c, kind, first, count)[0] ==
            Transfer(c, kind, CylinderOf(kind, first))[first % SectorsPerCylinder(kind) * BLOCK]
  {
    BlockOfDisk(c, kind, first);
    assert FlatSlice(c, kind, first, count)[0] == FlatSlice(c, kind, first, 1)[0];
  }

  /**
    Whatever failures leave in the buffer, all that a sequence of reads delivers is right, exactly
    when after every failure the next block asked for lies in another cylinder.
  */
  lemma CacheInvisibleIff(c: Controller, kind: DriveKind, s: State, reqs: seq<Request>)
    requires kind != Unsupported && Sized(c, kind) && |s.cache| == TransferSize(kind) && CacheSound(c, kind, s)
    ensures (forall debris | SizedDebris(debris, kind) :: AllRight(WithDebris(c, debris), kind, s, reqs)) <==>
            Avoids(c, kind, s, reqs)
  {
    if Avoids(c, kind, s, reqs) {
      forall debris | SizedDebris(debris, kind) ensures AllRight(WithDebris(c, debris), kind, s, reqs) {
        var c' := WithDebris(c, debris);
        SessionControl(c, c', kind, s, reqs);
        CacheInvisible(c', kind, s, reqs);
      }
    } else {
      var debris := ComingBack(c, kind, s, reqs);
    }
  }

  /**
    After one failed block read, the next block is answered rightly for all that may have been left
    in the buffer exactly when it lies in another cylinder.
  */
  lemma RetryAfterFailureIff(c: Controller, kind: DriveKind, s: State, block: nat, again: nat)
    requires kind != Unsupported && Sized(c, kind) && |s.cache| == TransferSize(kind) && !ReadOne(c, kind, s, block).ok
    ensures (forall junk: seq<Byte> | |junk| == TransferSize(kind) ::
               var r := ReadOne(c, kind, ReadOne(c, kind, s, block).state.(cache := junk), again);
               r.ok ==> r.data == FlatSlice(c, kind, again, 1)) <==>
            CylinderOf(kind, again) != CylinderOf(kind, block)
  {
    hide FlatSlice, Transfer, CylinderOf, Fetch, ReadOne;
    OneFailure(c, kind, s, block);
    var failed := ReadOne(c, kind, s, block).state;
    if CylinderOf(kind, again) == CylinderOf(kind, block) {
      var junk := Flipped(Transfer(c, kind, CylinderOf(kind, again)));
      WrongFromCache(c, kind, failed.(cache := junk), again);
    } else {
      forall junk: seq<Byte> | |junk| == TransferSize(kind)
        ensures var r := ReadOne(c, kind, failed.(cache := junk), again);
          r.ok ==> r.data == FlatSlice(c, kind, again, 1)
      {
        OneIsRight(c, kind, failed.(cache := junk), again);
      }
    }
  }

  /** A block of the recorded cylinder comes out of the buffer as it is. */
  lemma WrongFromCache(c: Controller, kind: DriveKind, s: State, block: nat)
    requires kind != Unsupported && Sized(c, kind) && |s.cache| == TransferSize(kind)
    requires s.cached == Some(CylinderOf(kind, block)) && s.cache == Flipped(Transfer(c, kind, CylinderOf(kind, block)))
    ensures var r := ReadOne(c, kind, s, block); r.ok && r.data != FlatSlice(c, kind, block, 1)
  {
    hide FlatSlice, Transfer, CylinderOf, SectorsPerTrack;
    BlockOfDisk(c, kind, block);
    var r := ReadOne(c, kind, s, block);
    assert r.data[0] != FlatSlice(c, kind, block, 1)[0];
  }

  class FloppyDrive {
    const kind: DriveKind
    const cache: array<Byte>
    var cached: Option<nat>
    ghost var calls: nat

    constructor (kind0: DriveKind)
      ensures kind == kind0 && cached == None && fresh(cache) && cache.Length == TransferSize(kind)
    {
      kind, cached, calls := kind0, None, 0;
      cache := new Byte[CylinderSize(kind0)];
    }

    ghost function Now(): State
      reads this, cache
    {
      State(cached, cache[..], calls)
    }

    ghost predicate Valid(c: Controller) {
      kind != Unsupported && Sized(c, kind) && cache.Length == TransferSize(kind)
    }

    /** A command to the controller, with its transfer into the buffer. */
    method ReadCylinder(c: Controller, call: nat, cylinder: nat) returns (error: bool)
      requires Valid(c) && call == calls
      modifies cache, this`calls
      ensures error == c.fails(call) && calls == call + 1
      ensures cache[..] == if error then c.debris(call) else Transfer(c, kind, cylinder)
    {
      error := c.fails(call);
      var bytes := if error then c.debris(call) else Transfer(c, kind, cylinder);
      forall i | 0 <= i < cache.Length { cache[i] := bytes[i]; }
      calls := call + 1;
    }

    method ReadBlock(c: Controller, call: nat, block: nat, buffer: array<Byte>, at: nat) returns (ok: bool, call': nat)
      requires Valid(c) && call == calls && buffer != cache && at + BLOCK <= buffer.Length
      modifies this`cached, this`calls, cache, buffer
      ensures ReadOne(c, kind, old(Now()), block).ok == ok && ReadOne(c, kind, old(Now()), block).state == Now()
      ensures call' == calls
      ensures buffer[..] == old(buffer[..at]) + ReadOne(c, kind, old(Now()), block).data +
                            old(buffer[..])[at + |ReadOne(c, kind, old(Now()), block).data|..]
    {
      hide SectorsPerTrack, Transfer, TransferSize, Sized;
      DriverDivides(kind, block);
      var cylinder := block / SectorsPerCylinder(kind);
      var offset := block % SectorsPerCylinder(kind) * BLOCK;
      var error := false;
      call' := call;
      if cached != Some(cylinder) {
        error := ReadCylinder(c, call, cylinder);
        cached := Some(cylinder);
        call' := call + 1;
      }
      if !error {
        forall i | 0 <= i < BLOCK { buffer[at + i] := cache[offset + i]; }
      }
      ok := !error;
    }

    method Read(c: Controller, call: nat, first: nat, count: nat, buffer: array<Byte>) returns (ok: bool)
      requires Valid(c) && call == calls && buffer != cache && count * BLOCK <= buffer.Length
      modifies this`cached, this`calls, cache, buffer
      ensures ReadMany(c, kind, old(Now()), first, count).ok == ok
      ensures ReadMany(c, kind, old(Now()), first, count).state == Now()
      ensures var data := ReadMany(c, kind, old(Now()), first, count).data;
        buffer[..] == data + old(buffer[..])[|data|..]
      ensures CacheSound(c, kind, old(Now())) && NoFailure(c, call, calls) ==>
                ok && ReadMany(c, kind, old(Now()), first, count).data == FlatSlice(c, kind, first, count)
    {
      hide ReadOne, FlatSlice, Fetch, CacheSound, NoFailure, Transfer, SectorsPerTrack, TransferSize;
      var n := call;
      ok := true;
      for i := 0 to count
        invariant ok && ReadMany(c, kind, old(Now()), first, i).ok && n == calls
        invariant ReadMany(c, kind, old(Now()), first, i).state == Now()
        invariant buffer[..] == ReadMany(c, kind, old(Now()), first, i).data + old(buffer[..])[i * BLOCK..]
      {
        ghost var was := ReadMany(c, kind, old(Now()), first, i);
        ok, n := ReadBlock(c, n, first + i, buffer, i * BLOCK);
        if !ok {
          ReadsStop(c, kind, old(Now()), first, i, count);
          break;
        }
      }
      SoundIfUnfailing(c, kind, old(Now()), first, count);
    }
  }

  /** Nothing follows a failure. */
  lemma {:induction false} ReadsStop(c: Controller, kind: DriveKind, s: State, first: nat, i: nat, count: nat)
    requires kind != Unsupported && Sized(c, kind) && |s.cache| == TransferSize(kind) && i < count
    requires ReadMany(c, kind, s, first, i).ok && !ReadMany(c, kind, s, first, i + 1).ok
    ensures ReadMany(c, kind, s, first, count) == ReadMany(c, kind, s, first, i + 1)
    decreases count
  {
    if i + 1 < count { ReadsStop(c, kind, s, first, i, count - 1); }
  }
}
