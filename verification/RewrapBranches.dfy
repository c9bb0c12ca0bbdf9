/** The re-wrapping job seen from a branch: its rows lie among all others under their keys. */
module RewrapBranches {
  import opened Model
  import opened Crypto
  import opened Text
  import opened Order
  import opened Wire
  import opened Versions
  import opened RewrapJob
  import opened Keys

  /** The store holds the checkpoint and diff rows of a branch. */
  ghost predicate HoldsRows(rows: Stored, id: string, branch: string, r: Rows) {
    && (forall v | v in r.fulls ::
          KeyOf(Snapshot(id, branch, v)) in rows && rows[KeyOf(Snapshot(id, branch, v))] == SnapRow(r.fulls[v]))
    && (forall v | v in r.diffs ::
          KeyOf(VersionDiff(id, branch, v)) in rows && rows[KeyOf(VersionDiff(id, branch, v))] == DiffRow(r.diffs[v]))
  }

  function SnapIn(rows: Stored, key: string): SnapshotMap {
    if key in rows && rows[key].SnapRow? then rows[key].snap else map[]
  }

  function DiffIn(rows: Stored, key: string): seq<DiffEntry> {
    if key in rows && rows[key].DiffRow? then rows[key].diff else []
  }

  /** The rows of the same versions, as another store has them. */
  function RowsIn(rows: Stored, id: string, branch: string, r: Rows): (q: Rows) {
    Rows(r.records,
         map v | v in r.fulls :: SnapIn(rows, KeyOf(Snapshot(id, branch, v))),
         map v | v in r.diffs :: DiffIn(rows, KeyOf(VersionDiff(id, branch, v))))
  }

  lemma SweptSnap(ring: Ring, a: Stored, b: Stored, id: string, branch: string, r: Rows, v: nat)
    requires Lacks(id, '/') && Lacks(branch, '/') && Swept(ring, a, b) && HoldsRows(a, id, branch, r) && v in r.fulls
    ensures var key := KeyOf(Snapshot(id, branch, v));
            && key in b && b[key].SnapRow?
            && (b[key].snap == r.fulls[v] || SnapRenewed(ring, r.fulls[v], b[key].snap))
  {
    hide KeyOf, Lacks, SnapRenewed, Covered, UnfitAt, AtMost;
    VersionRowsCovered(id, branch, v, r.fulls[v], []);
  }

  lemma SweptDiff(ring: Ring, a: Stored, b: Stored, id: string, branch: string, r: Rows, v: nat)
    requires Lacks(id, '/') && Lacks(branch, '/') && Swept(ring, a, b) && HoldsRows(a, id, branch, r) && v in r.diffs
    ensures var key := KeyOf(VersionDiff(id, branch, v));
            && key in b && b[key].DiffRow?
            && (b[key].diff == r.diffs[v] || DiffRenewed(ring, r.diffs[v], b[key].diff))
  {
    hide KeyOf, Lacks, DiffRenewed, Covered, UnfitAt, AtMost;
    VersionRowsCovered(id, branch, v, map[], r.diffs[v]);
  }

  /** However a run over the whole store ends, the store still holds each branch, with the same rows, and
      every version of it reads as its reader saw it before. */
  lemma SweptBranchReadsSame(ring: Ring, a: Stored, b: Stored, id: string, branch: string, r: Rows, v: nat)
    requires Lacks(id, '/') && Lacks(branch, '/') && Swept(ring, a, b) && HoldsRows(a, id, branch, r)
    ensures var q := RowsIn(b, id, branch, r);
            && HoldsRows(b, id, branch, q)
            && q.records == r.records && q.fulls.Keys == r.fulls.Keys && q.diffs.Keys == r.diffs.Keys
            && MapResult(Reader(ring), Read(r, v)) == MapResult(Reader(ring), Read(q, v))
  {
    hide KeyOf, Lacks, SnapRenewed, DiffRenewed, Swept, Read, MapResult, Reader;
    var q := RowsIn(b, id, branch, r);
    forall n | n in r.fulls
      ensures KeyOf(Snapshot(id, branch, n)) in b && b[KeyOf(Snapshot(id, branch, n))] == SnapRow(q.fulls[n])
      ensures q.fulls[n] == r.fulls[n] || SnapRenewed(ring, r.fulls[n], q.fulls[n])
    {
      SweptSnap(ring, a, b, id, branch, r, n);
    }
    forall n | n in r.diffs
      ensures KeyOf(VersionDiff(id, branch, n)) in b && b[KeyOf(VersionDiff(id, branch, n))] == DiffRow(q.diffs[n])
      ensures q.diffs[n] == r.diffs[n] || DiffRenewed(ring, r.diffs[n], q.diffs[n])
    {
      SweptDiff(ring, a, b, id, branch, r, n);
    }
    VersionsReadSame(ring, r, q, v);
  }
}
