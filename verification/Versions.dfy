/** A branch's version chain: checkpoint and diff storage, reading, writing and pruning it. */
module Versions {
  import opened Model
  import opened Order
  import opened Diff
  import opened Wire

  const CHECKPOINT_INTERVAL: nat := 100

  /** The rows stored under one branch's `v/` prefix. */
  datatype Rows = Rows(
    records: map<nat, VersionRecord>, fulls: map<nat, SnapshotMap>, diffs: map<nat, seq<DiffEntry>>)

  predicate Checkpoint(v: nat) {
    v == 1 || v % CHECKPOINT_INTERVAL == 0
  }

  /** The checkpoint a version is rebuilt from. */
  function Base(v: nat): nat
    requires v > 0
  {
    if v % CHECKPOINT_INTERVAL == 0 then v else
      var base := (v - 1) / CHECKPOINT_INTERVAL * CHECKPOINT_INTERVAL;
      if base == 0 then 1 else base
  }

  lemma BaseFacts(v: nat)
    requires v > 0
    ensures 1 <= Base(v) <= v && Checkpoint(Base(v))
    ensures forall i | Base(v) < i <= v :: !Checkpoint(i)
    ensures Base(Base(v)) == Base(v)
  {
  }

  lemma BaseNext(a: nat)
    requires a > 0 && !Checkpoint(a + 1)
    ensures Base(a + 1) == Base(a)
  {
  }

  lemma BaseAbove(c: nat, v: nat)
    requires 0 < c <= v && Checkpoint(c)
    ensures c <= Base(v)
  {
  }

  // ---------------- snapshot_of ----------------

  ghost function ReadFrom(r: Rows, snap: SnapshotMap, i: nat, v: nat): (s: Result<SnapshotMap>)
    decreases v + 1 - i
  {
    if i > v then Ok(snap)
    else if i % CHECKPOINT_INTERVAL == 0 then
      if i in r.fulls then ReadFrom(r, r.fulls[i], i + 1, v) else Err("snapshot not found")
    else if i in r.diffs then ReadFrom(r, Apply(snap, r.diffs[i]), i + 1, v)
    else if i in r.fulls then Ok(r.fulls[i])
    else Err("version not found")
  }

  /** The snapshot of version `v`: its checkpoint with the diffs up to `v` applied, or the
      fall-back to a full row where the checkpoint is missing. */
  ghost function Read(r: Rows, v: nat): (s: Result<SnapshotMap>) {
    if v == 0 then Err("version 0")
    else if Base(v) in r.fulls then ReadFrom(r, r.fulls[Base(v)], Base(v) + 1, v)
    else if v in r.fulls then Ok(r.fulls[v])
    else Err("version not found")
  }

  lemma ReadFromStep(r: Rows, snap: SnapshotMap, i: nat, v: nat)
    requires i <= v && i % CHECKPOINT_INTERVAL != 0
    ensures i in r.diffs ==> ReadFrom(r, snap, i, v) == ReadFrom(r, Apply(snap, r.diffs[i]), i + 1, v)
    ensures i !in r.diffs ==>
              ReadFrom(r, snap, i, v) == if i in r.fulls then Ok(r.fulls[i]) else Err("version not found")
  {
  }

  method SnapshotOf(r: Rows, version: nat) returns (s: Result<SnapshotMap>)
    ensures s == Read(r, version)
  {
    if version == 0 {
      return Err("version 0");
    }
    var start: nat := Base(version);
    if start !in r.fulls {
      if version in r.fulls {
        return Ok(r.fulls[version]);
      }
      return Err("version not found");
    }
    var snap := r.fulls[start];
    var v: nat := start + 1;
    while v <= version
      invariant start + 1 <= v <= version + 1 || v == start + 1
      invariant Read(r, version) == ReadFrom(r, snap, v, version)
      decreases version + 1 - v
    {
      if v % CHECKPOINT_INTERVAL == 0 {
        if v !in r.fulls {
          return Err("snapshot not found");
        }
        snap := r.fulls[v];
      } else if v in r.diffs {
        ReadFromStep(r, snap, v, version);
        snap := ApplyDiffTo(snap, r.diffs[v]);
      } else if v in r.fulls {
        return Ok(r.fulls[v]);
      } else {
        return Err("version not found");
      }
      v := v + 1;
    }
    return Ok(snap);
  }

  /** The state machine's own `apply_diff`, which skips an upsert without a value. */
  method ApplyDiffTo(base: SnapshotMap, diff: seq<DiffEntry>) returns (out: SnapshotMap)
    ensures out == Apply(base, diff)
  {
    out := base;
    for i := 0 to |diff|
      invariant out == Apply(base, diff[..i])
    {
      assert diff[..i + 1] == diff[..i] + [diff[i]];
      ApplySnoc(base, diff[..i], diff[i]);
      var d := diff[i];
      if d.kind == Upsert {
        if d.newValue.Some? {
          var items := if d.group in out then out[d.group] else map[];
          out := out[d.group := items[d.key := d.newValue.value]];
        }
      } else if d.group in out {
        var items := out[d.group] - {d.key};
        out := if items == map[] then out - {d.group} else out[d.group := items];
      }
    }
    assert diff[..|diff|] == diff;
  }

  // ---------------- which versions can be read ----------------

  /** Every recorded version has its row, in the form its number calls for, and there are no
      other rows; `active` is the newest. */
  ghost predicate Consistent(r: Rows, active: nat) {
    && (forall v :: v in r.fulls <==> v in r.records && Checkpoint(v))
    && (forall v :: v in r.diffs <==> v in r.records && !Checkpoint(v))
    && (forall v | v in r.records :: 0 < v <= active && r.records[v].no == v)
    && (active > 0 ==> active in r.records)
  }

  /** No version number is missing between the checkpoint of `v` and `v`. */
  ghost predicate Unbroken(r: Rows, v: nat) {
    v > 0 && forall i | Base(v) <= i <= v :: i in r.records
  }

  lemma {:induction false} ReadFromIff(r: Rows, snap: SnapshotMap, i: nat, v: nat)
    requires forall j | i <= j <= v :: j !in r.fulls && j % CHECKPOINT_INTERVAL != 0
    ensures ReadFrom(r, snap, i, v).Ok? <==> forall j | i <= j <= v :: j in r.diffs
    decreases v + 1 - i
  {
    hide Apply;
    if i <= v {
      ReadFromStep(r, snap, i, v);
      if i in r.diffs {
        ReadFromIff(r, Apply(snap, r.diffs[i]), i + 1, v);
      }
    }
  }

  /** In every consistent branch a version can be read exactly when its chain is unbroken. */
  lemma ReadIff(r: Rows, active: nat, v: nat)
    requires Consistent(r, active)
    ensures Read(r, v).Ok? <==> Unbroken(r, v)
  {
    if v > 0 {
      BaseFacts(v);
      if Base(v) in r.fulls {
        ReadFromIff(r, r.fulls[Base(v)], Base(v) + 1, v);
      }
    }
  }

  lemma {:induction false} ReadFromFrame(r: Rows, q: Rows, snap: SnapshotMap, i: nat, v: nat)
    requires forall j | i <= j <= v :: j in r.fulls <==> j in q.fulls
    requires forall j | i <= j <= v :: j in r.diffs <==> j in q.diffs
    requires forall j | i <= j <= v && j in r.fulls :: r.fulls[j] == q.fulls[j]
    requires forall j | i <= j <= v && j in r.diffs :: r.diffs[j] == q.diffs[j]
    ensures ReadFrom(r, snap, i, v) == ReadFrom(q, snap, i, v)
    decreases v + 1 - i
  {
    hide Apply;
    if i <= v {
      if i % CHECKPOINT_INTERVAL == 0 && i in r.fulls {
        ReadFromFrame(r, q, r.fulls[i], i + 1, v);
      } else if i % CHECKPOINT_INTERVAL != 0 && i in r.diffs {
        ReadFromFrame(r, q, Apply(snap, r.diffs[i]), i + 1, v);
      }
    }
  }

  lemma {:induction false} ReadFromStops(r: Rows, snap: SnapshotMap, i: nat, v: nat, stop: nat)
    requires i <= stop <= v && stop !in r.diffs
    requires forall j | i <= j <= stop :: j % CHECKPOINT_INTERVAL != 0
    requires forall j | i <= j < stop :: j in r.diffs
    ensures ReadFrom(r, snap, i, v) == if stop in r.fulls then Ok(r.fulls[stop]) else Err("version not found")
    decreases stop - i
  {
    hide Apply;
    if i < stop {
      ReadFromStops(r, Apply(snap, r.diffs[i]), i + 1, v, stop);
    }
  }

  /** Rows written before there were diffs. Without its checkpoint a version is read from its own full row;
      with it, from the full row of the first version after the checkpoint that has no diff, which is the
      version itself only if all before it have one. */
  lemma ReadOldRows(r: Rows, v: nat, stop: nat)
    requires v > 0
    ensures Base(v) !in r.fulls ==> Read(r, v) == if v in r.fulls then Ok(r.fulls[v]) else Err("version not found")
    ensures Base(v) in r.fulls && Base(v) < stop <= v && stop !in r.diffs && (forall j | Base(v) < j < stop :: j in r.diffs) ==>
              Read(r, v) == if stop in r.fulls then Ok(r.fulls[stop]) else Err("version not found")
  {
    hide ReadFrom;
    BaseFacts(v);
    if Base(v) in r.fulls && Base(v) < stop <= v && stop !in r.diffs && (forall j | Base(v) < j < stop :: j in r.diffs) {
      assert forall j | Base(v) < j <= v :: !Checkpoint(j);
      ReadFromStops(r, r.fulls[Base(v)], Base(v) + 1, v, stop);
    }
  }

  /** Reading a version depends only on the rows from its checkpoint to itself. */
  lemma ReadFrame(r: Rows, q: Rows, v: nat)
    requires v > 0
    requires forall j | Base(v) <= j <= v :: j in r.fulls <==> j in q.fulls
    requires forall j | Base(v) <= j <= v :: j in r.diffs <==> j in q.diffs
    requires forall j | Base(v) <= j <= v && j in r.fulls :: r.fulls[j] == q.fulls[j]
    requires forall j | Base(v) <= j <= v && j in r.diffs :: r.diffs[j] == q.diffs[j]
    ensures Read(r, v) == Read(q, v)
  {
    BaseFacts(v);
    if Base(v) in r.fulls {
      ReadFromFrame(r, q, r.fulls[Base(v)], Base(v) + 1, v);
    }
  }

  lemma {:induction false} ReadFromExtend(r: Rows, snap: SnapshotMap, i: nat, v: nat)
    requires i <= v + 1
    requires forall j | i <= j <= v + 1 :: j in r.diffs && j % CHECKPOINT_INTERVAL != 0
    ensures ReadFrom(r, snap, i, v).Ok?
    ensures ReadFrom(r, snap, i, v + 1) == Ok(Apply(ReadFrom(r, snap, i, v).value, r.diffs[v + 1]))
    decreases v + 1 - i
  {
    hide Apply;
    ReadFromStep(r, snap, i, v + 1);
    if i == v + 1 {
      assert ReadFrom(r, Apply(snap, r.diffs[i]), i + 1, v + 1) == Ok(Apply(snap, r.diffs[i]));
    } else {
      ReadFromStep(r, snap, i, v);
      ReadFromExtend(r, Apply(snap, r.diffs[i]), i + 1, v);
    }
  }

  // ---------------- write_version_snapshot ----------------

  ghost function Write(r: Rows, vno: nat, before: SnapshotMap, after: SnapshotMap, rec: VersionRecord): Rows {
    if Checkpoint(vno)
    then r.(records := r.records[vno := rec], fulls := r.fulls[vno := after])
    else r.(records := r.records[vno := rec], diffs := r.diffs[vno := Changes(before, after)])
  }

  lemma WriteConsistent(r: Rows, active: nat, vno: nat, before: SnapshotMap, after: SnapshotMap, rec: VersionRecord)
    requires Consistent(r, active) && active < vno && rec.no == vno
    ensures Consistent(Write(r, vno, before, after, rec), vno)
  {
  }

  /** Writing leaves every older version as it reads. */
  lemma WriteKeeps(r: Rows, active: nat, vno: nat, before: SnapshotMap, after: SnapshotMap, rec: VersionRecord, v: nat)
    requires Consistent(r, active) && active < vno && v < vno
    ensures Read(Write(r, vno, before, after, rec), v) == Read(r, v)
  {
    hide Changes;
    if v > 0 {
      ReadFrame(r, Write(r, vno, before, after, rec), v);
    }
  }

  /** The new version's diff row is there, and so is its chain's beginning. */
  lemma WriteShape(r: Rows, active: nat, before: SnapshotMap, after: SnapshotMap, rec: VersionRecord)
    requires Consistent(r, active) && active > 0 && Read(r, active).Ok? && !Checkpoint(active + 1)
    ensures var q := Write(r, active + 1, before, after, rec);
            && active + 1 in q.diffs && q.diffs[active + 1] == Changes(before, after)
            && Base(active + 1) == Base(active) && Base(active) in q.fulls && Base(active) <= active
            && forall j | Base(active) < j <= active + 1 :: j in q.diffs && j % CHECKPOINT_INTERVAL != 0
  {
    hide Changes, Apply, Read;
    BaseFacts(active + 1);
    BaseNext(active);
    ReadIff(r, active, active);
  }

  lemma WriteNext(r: Rows, active: nat, before: SnapshotMap, after: SnapshotMap, rec: VersionRecord)
    requires Consistent(r, active) && rec.no == active + 1
    requires active > 0 && Read(r, active) == Ok(before) && !Checkpoint(active + 1)
    ensures Read(Write(r, active + 1, before, after, rec), active + 1) == Ok(Apply(before, Changes(before, after)))
  {
    hide Changes, Apply, Consistent, Base;
    var vno := active + 1;
    var q := Write(r, vno, before, after, rec);
    WriteShape(r, active, before, after, rec);
    WriteKeeps(r, active, vno, before, after, rec, active);
    hide Write;
    ReadFromExtend(q, q.fulls[Base(vno)], Base(vno) + 1, active);
  }

  /** A version written on top of the readable active version `before` can be read back exactly
      when its number follows the active one directly or is a checkpoint, and then it holds what
      was written. */
  lemma WriteReads(r: Rows, active: nat, vno: nat, before: SnapshotMap, after: SnapshotMap, rec: VersionRecord)
    requires Consistent(r, active) && active < vno && rec.no == vno
    requires active > 0 ==> Read(r, active) == Ok(before)
    ensures var s := Read(Write(r, vno, before, after, rec), vno);
            && (s.Ok? <==> vno == active + 1 || vno % CHECKPOINT_INTERVAL == 0)
            && (s.Ok? ==> SameItems(s.value, after))
  {
    hide Changes, Apply, Get, ReadFrom;
    var q := Write(r, vno, before, after, rec);
    BaseFacts(vno);
    if Checkpoint(vno) {
      assert ReadFrom(q, after, vno + 1, vno) == Ok(after) by { ReadNone(q, after, vno); }
      assert Read(q, vno) == Ok(after);
    } else if vno == active + 1 {
      WriteNext(r, active, before, after, rec);
      RoundTrip(before, after);
    } else {
      WriteConsistent(r, active, vno, before, after, rec);
      ReadIff(q, vno, vno);
      assert active + 1 !in q.records;
      assert Base(vno) <= active + 1 <= vno || Base(vno) !in q.records;
    }
  }

  lemma ReadNone(r: Rows, snap: SnapshotMap, v: nat)
    ensures ReadFrom(r, snap, v + 1, v) == Ok(snap)
  {
  }

  // ---------------- prune_versions ----------------

  /** The three rows of each version in `gone` deleted. */
  ghost function Without(r: Rows, gone: set<nat>): Rows {
    Rows(r.records - gone, r.fulls - gone, r.diffs - gone)
  }

  ghost function Falling(hist: seq<nat>, cut: nat, active: nat): set<nat> {
    set v | v in hist && v < cut && v != active
  }

  ghost function Dropped(r: Rows, cut: nat, active: nat): set<nat> {
    set v | v in r.records && v < cut && v != active
  }

  /** The oldest version number pruning keeps: the checkpoint of the newest version beyond the
      `keep` newest. */
  ghost function PruneCut(r: Rows, keep: nat): (cut: nat)
    requires |r.records| > keep && forall v | v in r.records :: v > 0
  {
    var hist := SortedNats(r.records.Keys);
    assert hist[|hist| - keep - 1] in r.records;
    Base(hist[|hist| - keep - 1])
  }

  ghost function Pruned(r: Rows, active: nat, keep: nat): Rows
    requires forall v | v in r.records :: v > 0
  {
    if |r.records| <= keep then r else Without(r, Dropped(r, PruneCut(r, keep), active))
  }

  lemma RecordsPositive(r: Rows, active: nat)
    requires Consistent(r, active)
    ensures forall v | v in r.records :: 0 < v <= active
  {
    hide Checkpoint;
  }

  lemma PruneCutFacts(r: Rows, active: nat, keep: nat)
    requires Consistent(r, active) && |r.records| > keep
    ensures forall v | v in r.records :: v > 0
    ensures var cut := PruneCut(r, keep); 0 < cut <= active && Checkpoint(cut)
  {
    hide Consistent, Checkpoint, Base;
    RecordsPositive(r, active);
    var hist := SortedNats(r.records.Keys);
    assert hist[|hist| - keep - 1] in r.records;
    BaseFacts(hist[|hist| - keep - 1]);
  }

  lemma WithoutConsistent(r: Rows, active: nat, gone: set<nat>)
    requires Consistent(r, active) && active !in gone
    ensures Consistent(Without(r, gone), active)
  {
  }

  /** Pruning keeps every version from the cut on exactly as it read, and makes every older one
      unreadable; the active version is among those kept. */
  lemma PruneKeeps(r: Rows, active: nat, keep: nat, v: nat)
    requires Consistent(r, active) && |r.records| > keep
    ensures var q, cut := Pruned(r, active, keep), PruneCut(r, keep);
            && Consistent(q, active)
            && (v >= cut ==> Read(q, v) == Read(r, v) && (v in q.records <==> v in r.records))
            && (v < cut ==> Read(q, v).Err? && v !in q.records)
  {
    hide Read, ReadFrom, SortedNats, Base, PruneCut;
    var cut := PruneCut(r, keep);
    var gone := Dropped(r, cut, active);
    var q := Without(r, gone);
    assert q == Pruned(r, active, keep);
    PruneCutFacts(r, active, keep);
    WithoutConsistent(r, active, gone);
    if v >= cut {
      BaseAbove(cut, v);
      ReadFrame(r, q, v);
    } else if v > 0 {
      BaseFacts(v);
    }
    ReadIff(q, active, v);
  }

  /** The `keep` newest versions and the next older one all survive. */
  lemma PruneRetains(r: Rows, active: nat, keep: nat, i: nat)
    requires Consistent(r, active)
    requires i < |SortedNats(r.records.Keys)| <= i + keep + 1
    ensures SortedNats(r.records.Keys)[i] in Pruned(r, active, keep).records
  {
    hide Consistent, Checkpoint, Base;
    RecordsPositive(r, active);
    var hist := SortedNats(r.records.Keys);
    assert hist[i] in r.records;
    if |hist| > keep {
      var n := |hist| - keep - 1;
      assert hist[n] in r.records;
      BaseFacts(hist[n]);
      assert hist[n] <= hist[i];
    }
  }

  method CutFor(hist: seq<nat>, keep: nat) returns (keepFrom: nat)
    requires |hist| > keep && hist[|hist| - keep - 1] > 0
    ensures keepFrom == Base(hist[|hist| - keep - 1])
  {
    var newestKept := hist[|hist| - keep - 1];
    keepFrom := newestKept;
    if newestKept % CHECKPOINT_INTERVAL != 0 && newestKept != 1 {
      keepFrom := (newestKept - 1) / CHECKPOINT_INTERVAL * CHECKPOINT_INTERVAL;
      if keepFrom == 0 {
        keepFrom := 1;
      }
    }
  }

  /** No checkpoint lies above `v` and up to `h`. */
  ghost predicate NoCheckpointIn(v: nat, h: nat) {
    forall c: nat | Checkpoint(c) && c <= h :: c <= v
  }

  lemma NoCheckpointIff(v: nat, h: nat)
    requires h > 0
    ensures NoCheckpointIn(v, h) <==> Base(h) <= v
  {
    BaseFacts(h);
    if Base(h) <= v {
      forall c: nat | Checkpoint(c) && c <= h
        ensures c <= v
      {
        if c > 0 {
          BaseAbove(c, h);
        }
      }
    }
  }

  /** Exactly what pruning keeps. With `h` the number of the newest record beyond the `keep` newest, a
      record survives if and only if it is the active one or no checkpoint up to `h` is above it. */
  ghost predicate Survives(r: Rows, active: nat, keep: nat, v: nat) {
    var hist := SortedNats(r.records.Keys);
    |hist| <= keep || v == active || NoCheckpointIn(v, hist[|hist| - keep - 1])
  }

  lemma PruneExact(r: Rows, active: nat, keep: nat)
    requires Consistent(r, active)
    ensures forall v | v in r.records :: v > 0
    ensures forall v | v in r.records :: v in Pruned(r, active, keep).records <==> Survives(r, active, keep, v)
  {
    hide Consistent, Base, NoCheckpointIn, Checkpoint;
    RecordsPositive(r, active);
    var hist := SortedNats(r.records.Keys);
    if |hist| > keep {
      var h := hist[|hist| - keep - 1];
      assert h in r.records;
      forall v | v in r.records
        ensures v in Pruned(r, active, keep).records <==> Survives(r, active, keep, v)
      {
        NoCheckpointIff(v, h);
      }
    }
  }

  ghost function Range(lo: nat, hi: nat): (s: set<nat>)
    ensures forall v :: v in s <==> lo <= v <= hi
    decreases hi + 1 - lo
  {
    if lo > hi then {} else {lo} + Range(lo + 1, hi)
  }

  lemma {:induction false} RangeSize(lo: nat, hi: nat)
    requires lo <= hi + 1
    ensures |Range(lo, hi)| == hi + 1 - lo
    decreases hi + 1 - lo
  {
    if lo == hi + 1 {
      assert Range(lo, hi) == {};
    } else {
      RangeSize(lo + 1, hi);
      assert Range(lo, hi) == Range(lo + 1, hi) + {lo};
    }
  }

  lemma {:induction false} SubsetSize(a: set<nat>, b: set<nat>)
    requires a <= b
    ensures |a| <= |b|
  {
    if a != {} {
      var x :| x in a;
      SubsetSize(a - {x}, b - {x});
    }
  }

  /** On a history without gaps pruning leaves fewer than a checkpoint interval more than the `keep`
      newest records and the one before them. */
  lemma PruneBounds(r: Rows, active: nat, keep: nat, oldest: nat)
    requires Consistent(r, active) && r.records.Keys == Range(oldest, active) && oldest <= active
    ensures forall v | v in r.records :: v > 0
    ensures |Pruned(r, active, keep).records| <= keep + CHECKPOINT_INTERVAL
  {
    hide Consistent, Base, Pruned, Survives;
    PruneExact(r, active, keep);
    var q := Pruned(r, active, keep);
    assert q.records.Keys <= r.records.Keys by { PrunedFewer(r, active, keep); }
    if |r.records| > keep {
      RangeSize(oldest, active);
      NumbersInRange(SortedNats(r.records.Keys), oldest, active, |r.records| - keep - 1);
      var h: nat := active - keep;
      var low := if h < CHECKPOINT_INTERVAL then 1 else h - h % CHECKPOINT_INTERVAL;
      forall v | v in q.records
        ensures v in Range(low, active)
      {
        SurvivorAbove(r, active, keep, v, h, low);
      }
      SubsetSize(q.records.Keys, Range(low, active));
      RangeSize(low, active);
      assert |q.records| == |q.records.Keys|;
    } else {
      assert |q.records| == |r.records| by { PrunedFewer(r, active, keep); }
    }
  }

  lemma PrunedFewer(r: Rows, active: nat, keep: nat)
    requires forall v | v in r.records :: v > 0
    ensures Pruned(r, active, keep).records.Keys <= r.records.Keys
    ensures |r.records| <= keep ==> Pruned(r, active, keep) == r
  {
    hide Base;
  }

  lemma SurvivorAbove(r: Rows, active: nat, keep: nat, v: nat, h: nat, low: nat)
    requires |r.records| > keep && SortedNats(r.records.Keys)[|r.records| - keep - 1] == h
    requires Survives(r, active, keep, v) && 0 < h <= active && 0 < v <= active
    requires low == if h < CHECKPOINT_INTERVAL then 1 else h - h % CHECKPOINT_INTERVAL
    ensures low <= v
  {
    if v != active {
      assert Checkpoint(low) && low <= h;
    }
  }

  /** The numbers of a range in order are the range in order. */
  lemma {:induction false} NumbersInRange(ns: seq<nat>, lo: nat, hi: nat, i: nat)
    requires ListsNats(ns, Range(lo, hi)) && lo <= hi + 1 && i < |ns|
    ensures |ns| == hi + 1 - lo && ns[i] == lo + i
    decreases i
  {
    hide Range;
    RangeSize(lo, hi);
    assert lo in Range(lo, hi) && lo in ns;
    if i == 0 {
      assert ns[0] in ns;
      var j: nat :| j < |ns| && ns[j] == lo;
    } else {
      NumbersInRange(ns, lo, hi, i - 1);
      assert ns[i] in ns;
      assert lo + i in Range(lo, hi);
      assert lo + i in ns;
      var j: nat :| j < |ns| && ns[j] == lo + i;
    }
  }

  lemma WithoutOneMore(r: Rows, gone: set<nat>, no: nat)
    ensures var q := Without(r, gone);
            Rows(q.records - {no}, q.fulls - {no}, q.diffs - {no}) == Without(r, gone + {no})
  {
    assert r.records - gone - {no} == r.records - (gone + {no});
    assert r.fulls - gone - {no} == r.fulls - (gone + {no});
    assert r.diffs - gone - {no} == r.diffs - (gone + {no});
  }

  /** Deleting the three rows of every version that falls below the cut. */
  method DeleteBelow(r: Rows, active: nat, hist: seq<nat>, keepFrom: nat) returns (q: Rows, removed: nat)
    requires forall i, j | 0 <= i < j < |hist| :: hist[i] != hist[j]
    ensures q == Without(r, Falling(hist, keepFrom, active))
    ensures removed == |Falling(hist, keepFrom, active)|
  {
    hide Without;
    removed := 0;
    q := r;
    WithoutNone(r);
    ghost var gone: set<nat> := {};
    for i := 0 to |hist|
      invariant gone == Falling(hist[..i], keepFrom, active)
      invariant q == Without(r, gone) && removed == |gone|
    {
      var no := hist[i];
      assert hist[..i + 1] == hist[..i] + [no];
      if no < keepFrom && no != active {
        WithoutOneMore(r, gone, no);
        q := Rows(q.records - {no}, q.fulls - {no}, q.diffs - {no});
        gone := gone + {no};
        removed := removed + 1;
      }
    }
    assert hist[..|hist|] == hist;
  }

  /** The retention job on one branch. */
  method PruneVersions(r: Rows, active: nat, keep: nat) returns (q: Rows, removed: nat)
    requires Consistent(r, active)
    ensures q == Pruned(r, active, keep)
    ensures removed + |q.records| == |r.records|
    ensures forall v | v in r.records :: v in q.records <==> Survives(r, active, keep, v)
  {
    hide Base, Without, Consistent, Checkpoint, Survives;
    PruneExact(r, active, keep);
    RecordsPositive(r, active);
    var hist := NatsInOrder(r.records.Keys);
    if |hist| <= keep {
      return r, 0;
    }
    assert hist[|hist| - keep - 1] in r.records;
    var keepFrom := CutFor(hist, keep);
    q, removed := DeleteBelow(r, active, hist, keepFrom);
    assert keepFrom == PruneCut(r, keep);
    assert Dropped(r, keepFrom, active) == Falling(hist, keepFrom, active);
    WithoutCount(r, Dropped(r, keepFrom, active));
  }

  lemma WithoutCount(r: Rows, gone: set<nat>)
    requires gone <= r.records.Keys
    ensures |Without(r, gone).records| + |gone| == |r.records|
  {
    assert (r.records - gone).Keys == r.records.Keys - gone;
    assert |r.records.Keys - gone| + |gone| == |r.records.Keys|;
  }

  lemma WithoutNone(r: Rows)
    ensures Without(r, {}) == r
  {
  }

  // ---------------- rewriting stored values ----------------

  ghost function MapResult(f: Value -> Value, s: Result<SnapshotMap>): Result<SnapshotMap> {
    if s.Ok? then Ok(MapValues(f, s.value)) else s
  }

  /** Two branches whose rows show the same values through `f`. */
  ghost predicate SameThrough(f: Value -> Value, r: Rows, q: Rows) {
    && r.fulls.Keys == q.fulls.Keys && r.diffs.Keys == q.diffs.Keys
    && (forall v | v in r.fulls :: MapValues(f, r.fulls[v]) == MapValues(f, q.fulls[v]))
    && (forall v | v in r.diffs :: MapDiff(f, r.diffs[v]) == MapDiff(f, q.diffs[v]))
  }

  lemma {:induction false} ReadFromThrough(f: Value -> Value, r: Rows, q: Rows, s: SnapshotMap, t: SnapshotMap, i: nat, v: nat)
    requires SameThrough(f, r, q) && MapValues(f, s) == MapValues(f, t)
    ensures MapResult(f, ReadFrom(r, s, i, v)) == MapResult(f, ReadFrom(q, t, i, v))
    decreases v + 1 - i
  {
    hide Apply, MapValues, MapDiff;
    if i <= v {
      if i % CHECKPOINT_INTERVAL == 0 && i in r.fulls {
        ReadFromThrough(f, r, q, r.fulls[i], q.fulls[i], i + 1, v);
      } else if i % CHECKPOINT_INTERVAL != 0 && i in r.diffs {
        MapApply(f, s, r.diffs[i]);
        MapApply(f, t, q.diffs[i]);
        ReadFromThrough(f, r, q, Apply(s, r.diffs[i]), Apply(t, q.diffs[i]), i + 1, v);
      }
    }
  }

  /** Rewriting rows one by one, checkpoints and diffs alike, in a way `f` cannot see leaves every
      version as `f` shows it: with `f` the decryption of secrets, re-wrapping the data keys of all
      stored rows changes no decrypted version. */
  lemma ReadThrough(f: Value -> Value, r: Rows, q: Rows, v: nat)
    requires SameThrough(f, r, q)
    ensures MapResult(f, Read(r, v)) == MapResult(f, Read(q, v))
  {
    if v > 0 && Base(v) in r.fulls {
      ReadFromThrough(f, r, q, r.fulls[Base(v)], q.fulls[Base(v)], Base(v) + 1, v);
    }
  }
}
