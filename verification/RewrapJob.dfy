/** The background job that re-wraps the data keys of all stored secrets after a rotation. */
module RewrapJob {
  import opened Model
  import opened Crypto
  import opened Order
  import opened Diff
  import opened Wire
  import opened Versions
  import opened Text

  /** A stored row as its key's kind reads it: a snapshot, a version diff, a shared item, the value
      draft of a branch, or anything else. */
  datatype Row =
    | SnapRow(snap: SnapshotMap)
    | DiffRow(diff: seq<DiffEntry>)
    | SharedRow(item: Value)
    | StateRow(draft: SnapshotMap)
    | OtherRow(raw: string)

  /** Whether the scan looks at a row, decided by its key in this order; a row that does not parse as
      the kind its key names is passed over. */
  predicate Covered(key: string, row: Row) {
    if EndsWith(key, "/snap") then row.SnapRow?
    else if EndsWith(key, "/diff") then row.DiffRow?
    else if "sh/" <= key || "sh-draft/" <= key then row.SharedRow?
    else if Contains(key, "/gray-snap/") then row.SnapRow?
    else "p/" <= key && Contains(key[2..], "/b/") && EndsWith(key, "/state") && row.StateRow?
  }

  // ---------------- one value ----------------

  /** A secret sealed under a generation before the current one. */
  predicate Stale(ring: Ring, v: Value) {
    v.Secret? && v.sealed.dekV < |ring|
  }

  /** Its data key can be opened under the generation it names. */
  predicate Openable(ring: Ring, v: Value) {
    v.Secret? &&
    var c := v.sealed;
    1 <= c.dekV <= |ring| && c.edek.Sealed? && c.edek.key == ring[c.dekV - 1] && c.edek.nonce == c.edekNonce
  }

  predicate Fit(ring: Ring, v: Value) {
    Stale(ring, v) ==> Openable(ring, v)
  }

  /** What a reader with the ring sees of a value: a secret shows its plaintext, or why it has none. */
  function Shown(ring: Ring, v: Value): (r: Value) {
    match v
    case Secret(c) =>
      var p := Decrypt(ring, c);
      var blank := Garbage("");
      Secret(Ciphertext(if p.Ok? then "plain" else "unreadable", c.v, 0, c.nonce,
                        Garbage(if p.Ok? then p.value else p.message), blank, ""))
    case _ => v
  }

  function Reader(ring: Ring): Value -> Value {
    v => Shown(ring, v)
  }

  /** `w` is `v` after the job: only a stale secret differs, and of it only the sealed data key and
      its generation, now the current one; what it shows is the same. */
  ghost predicate Renewed(ring: Ring, v: Value, w: Value) {
    && (!Stale(ring, v) ==> w == v)
    && (Stale(ring, v) ==>
          && w.Secret? && w.sealed.dekV == |ring|
          && w.sealed == v.sealed.(dekV := |ring|, edek := w.sealed.edek, edekNonce := w.sealed.edekNonce))
    && Shown(ring, w) == Shown(ring, v)
  }

  /** What re-wrapping is for: a secret of a generation below the current one is now of the current one,
      its data untouched, and read alike under every ring that has the current KEK in its place,
      whatever the KEKs before it; any other value is what it was. */
  ghost predicate MovedOn(ring: Ring, v: Value, w: Value) {
    if v.Secret? && v.sealed.dekV < |ring| then
      && w.Secret? && w.sealed.dekV == |ring| && w.sealed.ct == v.sealed.ct && w.sealed.nonce == v.sealed.nonce
      && forall other: Ring | |other| >= |ring| && other[|ring| - 1] == ring[|ring| - 1] ::
           Decrypt(other, w.sealed) == Decrypt(ring, v.sealed)
    else w == v
  }

  lemma ShownDecrypts(ring: Ring, v: Value, w: Value)
    requires v.Secret? && w.Secret? && Shown(ring, w) == Shown(ring, v)
    ensures Decrypt(ring, w.sealed) == Decrypt(ring, v.sealed)
  {
    var x, y := Shown(ring, v).sealed, Shown(ring, w).sealed;
    assert x.enc[0] == y.enc[0];
    assert "plain"[0] != "unreadable"[0];
  }

  lemma RenewedMovesOn(ring: Ring, v: Value, w: Value)
    requires Renewed(ring, v, w)
    ensures MovedOn(ring, v, w)
  {
    if v.Secret? && v.sealed.dekV < |ring| {
      ShownDecrypts(ring, v, w);
      forall other: Ring | |other| >= |ring| && other[|ring| - 1] == ring[|ring| - 1]
        ensures Decrypt(other, w.sealed) == Decrypt(ring, v.sealed)
      {
        assert ReadingKey(other, |ring|) == ReadingKey(ring, |ring|);
      }
    }
  }

  method RewrapValue(ring: Ring, v: Value) returns (r: Result<Value>, changed: bool)
    ensures r.Ok? <==> Fit(ring, v)
    ensures r.Ok? ==> Renewed(ring, v, r.value) && MovedOn(ring, v, r.value)
    ensures changed <==> r.Ok? && Stale(ring, v)
    ensures changed <==> r.Ok? && v.Secret? && v.sealed.dekV < |ring|
  {
    if v.Secret? && v.sealed.dekV < |ring| {
      var edekNonce: Bytes := *;
      var d := Rewrap(ring, v.sealed, edekNonce);
      RewrapExact(ring, v.sealed, edekNonce);
      if d.Err? {
        return Err(d.message), false;
      }
      RenewedMovesOn(ring, v, Secret(d.value));
      return Ok(Secret(d.value)), true;
    }
    r, changed := Ok(v), false;
  }

  // ---------------- one row ----------------

  ghost predicate GroupRenewed(ring: Ring, a: map<string, Value>, b: map<string, Value>) {
    a.Keys == b.Keys && forall k | k in a :: Renewed(ring, a[k], b[k])
  }

  ghost predicate SnapRenewed(ring: Ring, a: SnapshotMap, b: SnapshotMap) {
    a.Keys == b.Keys && forall g | g in a :: GroupRenewed(ring, a[g], b[g])
  }

  ghost predicate EntryRenewed(ring: Ring, d: DiffEntry, e: DiffEntry) {
    if d.kind == Upsert && d.newValue.Some?
    then e.newValue.Some? && e == d.(newValue := e.newValue) && Renewed(ring, d.newValue.value, e.newValue.value)
    else e == d
  }

  ghost predicate DiffRenewed(ring: Ring, a: seq<DiffEntry>, b: seq<DiffEntry>) {
    |a| == |b| && forall i | 0 <= i < |a| :: EntryRenewed(ring, a[i], b[i])
  }

  ghost predicate RowRenewed(ring: Ring, a: Row, b: Row) {
    match a
    case SnapRow(snap) => b.SnapRow? && SnapRenewed(ring, snap, b.snap)
    case DiffRow(diff) => b.DiffRow? && DiffRenewed(ring, diff, b.diff)
    case SharedRow(item) => b.SharedRow? && Renewed(ring, item, b.item)
    case StateRow(draft) => b.StateRow? && SnapRenewed(ring, draft, b.draft)
    case OtherRow(_) => b == a
  }

  ghost predicate GroupStale(ring: Ring, items: map<string, Value>) {
    exists k :: k in items && Stale(ring, items[k])
  }

  ghost predicate SnapStale(ring: Ring, m: SnapshotMap) {
    exists g :: g in m && GroupStale(ring, m[g])
  }

  ghost predicate EntryStale(ring: Ring, d: DiffEntry) {
    d.kind == Upsert && d.newValue.Some? && Stale(ring, d.newValue.value)
  }

  ghost predicate RowStale(ring: Ring, row: Row) {
    match row
    case SnapRow(snap) => SnapStale(ring, snap)
    case DiffRow(diff) => exists i :: 0 <= i < |diff| && EntryStale(ring, diff[i])
    case SharedRow(item) => Stale(ring, item)
    case StateRow(draft) => SnapStale(ring, draft)
    case OtherRow(_) => false
  }

  ghost predicate GroupFit(ring: Ring, items: map<string, Value>) {
    forall k | k in items :: Fit(ring, items[k])
  }

  ghost predicate SnapFit(ring: Ring, m: SnapshotMap) {
    forall g | g in m :: GroupFit(ring, m[g])
  }

  ghost predicate EntryFit(ring: Ring, d: DiffEntry) {
    d.kind == Upsert && d.newValue.Some? ==> Fit(ring, d.newValue.value)
  }

  /** No stale secret of the row has a data key that cannot be opened. */
  ghost predicate RowFit(ring: Ring, row: Row) {
    match row
    case SnapRow(snap) => SnapFit(ring, snap)
    case DiffRow(diff) => forall i | 0 <= i < |diff| :: EntryFit(ring, diff[i])
    case SharedRow(item) => Fit(ring, item)
    case StateRow(draft) => SnapFit(ring, draft)
    case OtherRow(_) => true
  }

  method RewrapGroup(ring: Ring, items: map<string, Value>) returns (r: Result<map<string, Value>>, changed: bool)
    ensures r.Ok? <==> GroupFit(ring, items)
    ensures r.Ok? ==> GroupRenewed(ring, items, r.value) && (changed <==> GroupStale(ring, items))
  {
    hide Renewed, Stale, Fit;
    var res: map<string, Value> := map[];
    var todo := items.Keys;
    changed := false;
    while todo != {}
      invariant todo <= items.Keys && res.Keys == items.Keys - todo
      invariant forall k | k in res :: Renewed(ring, items[k], res[k]) && Fit(ring, items[k])
      invariant changed <==> exists k :: k in res && Stale(ring, items[k])
    {
      var k :| k in todo;
      var v, touched := RewrapValue(ring, items[k]);
      if v.Err? {
        return Err(v.message), changed;
      }
      ghost var before := res;
      res := res[k := v.value];
      assert forall j | j in before :: j in res;
      assert touched ==> k in res && Stale(ring, items[k]);
      changed := changed || touched;
      todo := todo - {k};
    }
    assert res.Keys == items.Keys;
    r := Ok(res);
  }

  method RewrapSnapshot(ring: Ring, m: SnapshotMap) returns (r: Result<SnapshotMap>, changed: bool)
    ensures r.Ok? <==> SnapFit(ring, m)
    ensures r.Ok? ==> SnapRenewed(ring, m, r.value) && (changed <==> SnapStale(ring, m))
  {
    hide GroupRenewed, GroupStale, GroupFit;
    var res: SnapshotMap := map[];
    var todo := m.Keys;
    changed := false;
    while todo != {}
      invariant todo <= m.Keys && res.Keys == m.Keys - todo
      invariant forall g | g in res :: GroupRenewed(ring, m[g], res[g]) && GroupFit(ring, m[g])
      invariant changed <==> exists g :: g in res && GroupStale(ring, m[g])
    {
      var g :| g in todo;
      var items, touched := RewrapGroup(ring, m[g]);
      if items.Err? {
        return Err(items.message), changed;
      }
      ghost var before := res;
      res := res[g := items.value];
      assert forall j | j in before :: j in res;
      assert touched ==> g in res && GroupStale(ring, m[g]);
      changed := changed || touched;
      todo := todo - {g};
    }
    assert res.Keys == m.Keys;
    r := Ok(res);
  }

  method RewrapDiff(ring: Ring, ds: seq<DiffEntry>) returns (r: Result<seq<DiffEntry>>, changed: bool)
    ensures r.Ok? <==> forall i | 0 <= i < |ds| :: EntryFit(ring, ds[i])
    ensures r.Ok? ==> DiffRenewed(ring, ds, r.value)
    ensures r.Ok? ==> (changed <==> exists i :: 0 <= i < |ds| && EntryStale(ring, ds[i]))
  {
    hide Renewed, Stale, Fit;
    var res: seq<DiffEntry> := [];
    changed := false;
    for i := 0 to |ds|
      invariant |res| == i
      invariant forall j | 0 <= j < i :: EntryRenewed(ring, ds[j], res[j]) && EntryFit(ring, ds[j])
      invariant changed <==> exists j :: 0 <= j < i && EntryStale(ring, ds[j])
    {
      var d := ds[i];
      if d.kind == Upsert && d.newValue.Some? {
        var v, touched := RewrapValue(ring, d.newValue.value);
        if v.Err? {
          assert !EntryFit(ring, ds[i]);
          return Err(v.message), changed;
        }
        d := d.(newValue := Some(v.value));
        changed := changed || touched;
      }
      res := res + [d];
    }
    r := Ok(res);
  }

  method RewrapRow(ring: Ring, row: Row) returns (r: Result<Row>, changed: bool)
    ensures r.Ok? <==> RowFit(ring, row)
    ensures r.Ok? ==> RowRenewed(ring, row, r.value) && (changed <==> RowStale(ring, row))
  {
    hide SnapRenewed, DiffRenewed, SnapFit, EntryFit, SnapStale, EntryStale, Renewed, Stale, Fit;
    match row
    case SnapRow(snap) =>
      var s, touched := RewrapSnapshot(ring, snap);
      if s.Err? { return Err(s.message), false; }
      r, changed := Ok(SnapRow(s.value)), touched;
    case DiffRow(diff) =>
      var d, touched := RewrapDiff(ring, diff);
      if d.Err? { return Err(d.message), false; }
      r, changed := Ok(DiffRow(d.value)), touched;
    case SharedRow(item) =>
      var v, touched := RewrapValue(ring, item);
      if v.Err? { return Err(v.message), false; }
      r, changed := Ok(SharedRow(v.value)), touched;
    case StateRow(draft) =>
      var s, touched := RewrapSnapshot(ring, draft);
      if s.Err? { return Err(s.message), false; }
      r, changed := Ok(StateRow(s.value)), touched;
    case OtherRow(_) =>
      r, changed := Ok(row), false;
  }

  lemma GroupRenewedFacts(ring: Ring, a: map<string, Value>, b: map<string, Value>)
    requires GroupRenewed(ring, a, b)
    ensures !GroupStale(ring, b)
    ensures !GroupStale(ring, a) ==> a == b
    ensures MapGroup(Reader(ring), a) == MapGroup(Reader(ring), b)
  {
    hide Shown;
  }

  lemma SnapRenewedFacts(ring: Ring, a: SnapshotMap, b: SnapshotMap)
    requires SnapRenewed(ring, a, b)
    ensures !SnapStale(ring, b)
    ensures !SnapStale(ring, a) ==> a == b
    ensures MapValues(Reader(ring), a) == MapValues(Reader(ring), b)
  {
    hide GroupRenewed, GroupStale, MapGroup, Reader;
    forall g | g in a
      ensures !GroupStale(ring, b[g]) && (!GroupStale(ring, a[g]) ==> a[g] == b[g])
      ensures MapGroup(Reader(ring), a[g]) == MapGroup(Reader(ring), b[g])
    {
      GroupRenewedFacts(ring, a[g], b[g]);
    }
  }

  lemma DiffRenewedFacts(ring: Ring, a: seq<DiffEntry>, b: seq<DiffEntry>)
    requires DiffRenewed(ring, a, b)
    ensures forall i | 0 <= i < |b| :: !EntryStale(ring, b[i])
    ensures (forall i | 0 <= i < |a| :: !EntryStale(ring, a[i])) ==> a == b
    ensures MapDiff(Reader(ring), a) == MapDiff(Reader(ring), b)
  {
    hide Shown, MapDiff;
  }

  /** What a reader with the ring sees of a row. */
  ghost function ShownRow(ring: Ring, row: Row): (r: Row) {
    match row
    case SnapRow(snap) => SnapRow(MapValues(Reader(ring), snap))
    case DiffRow(diff) => DiffRow(MapDiff(Reader(ring), diff))
    case SharedRow(item) => SharedRow(Shown(ring, item))
    case StateRow(draft) => StateRow(MapValues(Reader(ring), draft))
    case OtherRow(_) => row
  }

  /** A renewed row shows what it showed, has no stale secret left, and is untouched if it had none. */
  lemma RowRenewedFacts(ring: Ring, a: Row, b: Row)
    requires RowRenewed(ring, a, b)
    ensures ShownRow(ring, a) == ShownRow(ring, b)
    ensures !RowStale(ring, b)
    ensures !RowStale(ring, a) ==> a == b
  {
    hide SnapRenewed, DiffRenewed, SnapStale, EntryStale, MapValues, MapDiff, Reader, Shown;
    match a
    case SnapRow(snap) => SnapRenewedFacts(ring, snap, b.snap);
    case DiffRow(diff) => DiffRenewedFacts(ring, diff, b.diff);
    case SharedRow(item) =>
    case StateRow(draft) => SnapRenewedFacts(ring, draft, b.draft);
    case OtherRow(_) =>
  }

  lemma NotStaleFit(ring: Ring, row: Row)
    requires !RowStale(ring, row)
    ensures RowFit(ring, row)
  {
    hide Openable;
  }

  // ---------------- the values of a row ----------------

  /** Where a row has a value the job looks at. */
  datatype Place = AtItem(group: string, key: string) | AtEntry(index: nat) | AtWhole

  function ValueAt(row: Row, p: Place): (v: Option<Value>) {
    match row
    case SnapRow(snap) => if p.AtItem? then Get(snap, p.group, p.key) else None
    case DiffRow(diff) => if p.AtEntry? && p.index < |diff| && diff[p.index].kind == Upsert then diff[p.index].newValue else None
    case SharedRow(item) => if p.AtWhole? then Some(item) else None
    case StateRow(draft) => if p.AtItem? then Get(draft, p.group, p.key) else None
    case OtherRow(_) => None
  }

  ghost predicate RowMovedOn(ring: Ring, a: Row, b: Row) {
    forall p :: match ValueAt(a, p)
                case None => ValueAt(b, p).None?
                case Some(v) => ValueAt(b, p).Some? && MovedOn(ring, v, ValueAt(b, p).value)
  }

  lemma RowRenewedMovesOn(ring: Ring, a: Row, b: Row)
    requires RowRenewed(ring, a, b)
    ensures RowMovedOn(ring, a, b)
  {
    hide Renewed, MovedOn;
    forall p
      ensures ValueAt(a, p).None? ==> ValueAt(b, p).None?
      ensures ValueAt(a, p).Some? ==> ValueAt(b, p).Some? && MovedOn(ring, ValueAt(a, p).value, ValueAt(b, p).value)
    {
      if ValueAt(a, p).Some? {
        assert ValueAt(b, p).Some? && Renewed(ring, ValueAt(a, p).value, ValueAt(b, p).value);
        RenewedMovesOn(ring, ValueAt(a, p).value, ValueAt(b, p).value);
      }
    }
  }

  /** The rows the job counts are those with a secret of an older generation in some place. */
  lemma RowStaleExact(ring: Ring, row: Row)
    ensures RowStale(ring, row) <==>
            exists p :: ValueAt(row, p).Some? && ValueAt(row, p).value.Secret? && ValueAt(row, p).value.sealed.dekV < |ring|
  {
    if RowStale(ring, row) {
      match row
      case SnapRow(snap) => SnapStalePlace(ring, row, snap);
      case DiffRow(diff) =>
        var i :| 0 <= i < |diff| && EntryStale(ring, diff[i]);
        assert ValueAt(row, AtEntry(i)) == diff[i].newValue;
      case SharedRow(item) => assert ValueAt(row, AtWhole) == Some(item);
      case StateRow(draft) => SnapStalePlace(ring, row, draft);
    }
    if p :| ValueAt(row, p).Some? && ValueAt(row, p).value.Secret? && ValueAt(row, p).value.sealed.dekV < |ring| {
      if p.AtItem? {
        var snap := if row.SnapRow? then row.snap else row.draft;
        assert GroupStale(ring, snap[p.group]);
      }
    }
  }

  lemma SnapStalePlace(ring: Ring, row: Row, snap: SnapshotMap)
    requires SnapStale(ring, snap) && (row == SnapRow(snap) || row == StateRow(snap))
    ensures exists p :: ValueAt(row, p).Some? && ValueAt(row, p).value.Secret? && ValueAt(row, p).value.sealed.dekV < |ring|
  {
    var g :| g in snap && GroupStale(ring, snap[g]);
    var k :| k in snap[g] && Stale(ring, snap[g][k]);
    assert ValueAt(row, AtItem(g, k)) == Some(snap[g][k]);
  }

  /** A row lets the job through exactly when each of those secrets can be re-wrapped. */
  lemma RowFitExact(ring: Ring, row: Row, edekNonce: Bytes)
    ensures RowFit(ring, row) <==>
            forall p :: ValueAt(row, p).Some? && ValueAt(row, p).value.Secret? && ValueAt(row, p).value.sealed.dekV < |ring|
                        ==> Rewrap(ring, ValueAt(row, p).value.sealed, edekNonce).Ok?
  {
    hide Rewrap;
    forall p: Place | ValueAt(row, p).Some?
      ensures ValueAt(row, p).value.Secret? ==>
                (Openable(ring, ValueAt(row, p).value) <==> Rewrap(ring, ValueAt(row, p).value.sealed, edekNonce).Ok?)
    {
      if ValueAt(row, p).value.Secret? {
        RewrapExact(ring, ValueAt(row, p).value.sealed, edekNonce);
      }
    }
    RowFitPlaces(ring, row);
  }

  lemma RowFitPlaces(ring: Ring, row: Row)
    ensures RowFit(ring, row) <==> forall p :: ValueAt(row, p).Some? ==> Fit(ring, ValueAt(row, p).value)
  {
    hide Fit;
    if forall p :: ValueAt(row, p).Some? ==> Fit(ring, ValueAt(row, p).value) {
      match row
      case SnapRow(snap) =>
        forall g, k | g in snap && k in snap[g]
          ensures Fit(ring, snap[g][k])
        {
          assert ValueAt(row, AtItem(g, k)) == Some(snap[g][k]);
        }
      case DiffRow(diff) =>
        forall i | 0 <= i < |diff|
          ensures EntryFit(ring, diff[i])
        {
          assert ValueAt(row, AtEntry(i)) == if diff[i].kind == Upsert then diff[i].newValue else None;
        }
      case SharedRow(item) => assert ValueAt(row, AtWhole) == Some(item);
      case StateRow(draft) =>
        forall g, k | g in draft && k in draft[g]
          ensures Fit(ring, draft[g][k])
        {
          assert ValueAt(row, AtItem(g, k)) == Some(draft[g][k]);
        }
      case OtherRow(_) =>
    }
  }

  // ---------------- all rows ----------------

  type Stored = map<string, Row>

  ghost predicate StaleAt(ring: Ring, rows: Stored, k: string) {
    k in rows && Covered(k, rows[k]) && RowStale(ring, rows[k])
  }

  ghost function StaleKeys(ring: Ring, rows: Stored, among: set<string>): set<string> {
    set k | k in among && StaleAt(ring, rows, k)
  }

  ghost predicate UnfitAt(ring: Ring, rows: Stored, k: string) {
    k in rows && Covered(k, rows[k]) && !RowFit(ring, rows[k])
  }

  /** The row at `k` has been dealt with: renewed if covered, else left. */
  ghost predicate DoneAt(ring: Ring, a: Stored, b: Stored, k: string)
    requires k in a && k in b
  {
    if Covered(k, a[k]) then RowRenewed(ring, a[k], b[k]) else b[k] == a[k]
  }

  /** A run over all rows: without an unfit row every row is done; with one, the rows before the first
      unfit key are done and the rest are as they were. */
  ghost predicate Swept(ring: Ring, a: Stored, b: Stored) {
    && a.Keys == b.Keys
    && forall k | k in a ::
         if exists u :: UnfitAt(ring, a, u) && AtMost(u, k) then b[k] == a[k] else DoneAt(ring, a, b, k)
  }

  lemma StaleKeysNext(ring: Ring, rows: Stored, among: set<string>, k: string)
    requires k !in among
    ensures |StaleKeys(ring, rows, among + {k})| ==
            |StaleKeys(ring, rows, among)| + if StaleAt(ring, rows, k) then 1 else 0
  {
    hide StaleAt;
    var s, t := StaleKeys(ring, rows, among), StaleKeys(ring, rows, among + {k});
    if StaleAt(ring, rows, k) {
      assert t == s + {k};
    } else {
      assert t == s;
    }
  }

  class SecretStore {
    var rows: Stored

    constructor (stored: Stored)
      ensures rows == stored
    {
      rows := stored;
    }

    /** Scan all rows in key order, rewriting each covered row that has a stale secret; the first data
        key that cannot be opened ends the run. Succeeds exactly when there is none, and counts the
        rows rewritten. */
    method RewrapDeks(ring: Ring) returns (count: Result<nat>)
      modifies this
      ensures Swept(ring, old(rows), rows)
      ensures count.Ok? <==> forall u :: !UnfitAt(ring, old(rows), u)
      ensures count.Ok? ==> count.value == |StaleKeys(ring, old(rows), old(rows).Keys)|
      ensures count.Ok? ==> forall k | k in rows && Covered(k, old(rows)[k]) :: RowMovedOn(ring, old(rows)[k], rows[k])
      ensures count.Ok? ==> NoneBehind(ring, rows)
    {
      hide Covered, RowFit, RowStale, RowRenewed, StaleKeys;
      var ks := KeysInOrder(rows.Keys);
      ghost var before := rows;
      var n := 0;
      ghost var seen: set<string> := {};
      StaleKeysNone(ring, before);
      for i := 0 to |ks|
        invariant rows.Keys == before.Keys
        invariant seen == Elements(ks[..i])
        invariant forall k | k in seen :: k in before && DoneAt(ring, before, rows, k) && !UnfitAt(ring, before, k)
        invariant forall k | k in before && k !in seen :: rows[k] == before[k]
        invariant n == |StaleKeys(ring, before, seen)|
      {
        var k := ks[i];
        assert k in before;
        NextElement(ks, i);
        StaleKeysNext(ring, before, seen, k);
        if Covered(k, rows[k]) {
          var row, changed := RewrapRow(ring, rows[k]);
          if row.Err? {
            FirstUnfit(ring, before, rows, ks, i);
            return Err(row.message);
          }
          RowRenewedFacts(ring, rows[k], row.value);
          if changed {
            rows := rows[k := row.value];
            n := n + 1;
          }
        }
        seen := seen + {k};
      }
      assert ks[..|ks|] == ks;
      assert seen == before.Keys;
      SweptMovesOn(ring, before, rows);
      count := Ok(n);
    }
  }

  /** Every secret the job covers is of the current generation, or a later one. */
  ghost predicate NoneBehind(ring: Ring, rows: Stored) {
    forall k, p | k in rows && Covered(k, rows[k]) && ValueAt(rows[k], p).Some? && ValueAt(rows[k], p).value.Secret? ::
      ValueAt(rows[k], p).value.sealed.dekV >= |ring|
  }

  lemma SweptMovesOn(ring: Ring, a: Stored, b: Stored)
    requires Swept(ring, a, b) && forall u :: !UnfitAt(ring, a, u)
    ensures forall k | k in b && Covered(k, a[k]) :: RowMovedOn(ring, a[k], b[k])
    ensures NoneBehind(ring, b)
  {
    hide Covered, RowRenewed, RowMovedOn, UnfitAt;
    forall k | k in b && Covered(k, a[k])
      ensures RowMovedOn(ring, a[k], b[k])
    {
      assert DoneAt(ring, a, b, k);
      RowRenewedMovesOn(ring, a[k], b[k]);
    }
    forall k, p | k in b && Covered(k, b[k]) && ValueAt(b[k], p).Some? && ValueAt(b[k], p).value.Secret?
      ensures ValueAt(b[k], p).value.sealed.dekV >= |ring|
    {
      assert DoneAt(ring, a, b, k);
      assert Covered(k, a[k]);
      SecretMoved(ring, a[k], b[k], p);
    }
  }

  lemma SecretMoved(ring: Ring, a: Row, b: Row, p: Place)
    requires RowMovedOn(ring, a, b) && ValueAt(b, p).Some? && ValueAt(b, p).value.Secret?
    ensures ValueAt(b, p).value.sealed.dekV >= |ring|
  {
    hide ValueAt;
    if ValueAt(a, p).Some? {
      var v, w := ValueAt(a, p).value, ValueAt(b, p).value;
      assert MovedOn(ring, v, w);
    }
  }

  lemma StaleKeysNone(ring: Ring, rows: Stored)
    ensures StaleKeys(ring, rows, {}) == {}
  {
  }

  ghost function Elements(ks: seq<string>): set<string> {
    set k | k in ks
  }

  lemma NextElement(ks: seq<string>, i: nat)
    requires Ascending(ks) && i < |ks|
    ensures ks[i] !in Elements(ks[..i]) && Elements(ks[..i + 1]) == Elements(ks[..i]) + {ks[i]}
  {
    if ks[i] in ks[..i] {
      var j :| 0 <= j < i && ks[j] == ks[i];
      AscendingDistinct(ks, i, j);
    }
    assert ks[..i + 1] == ks[..i] + [ks[i]];
  }

  lemma FirstUnfit(ring: Ring, before: Stored, rows: Stored, ks: seq<string>, i: nat)
    requires Lists(ks, before.Keys) && i < |ks| && rows.Keys == before.Keys
    requires UnfitAt(ring, before, ks[i])
    requires forall k | k in Elements(ks[..i]) :: k in before && DoneAt(ring, before, rows, k) && !UnfitAt(ring, before, k)
    requires forall k | k in before && k !in Elements(ks[..i]) :: rows[k] == before[k]
    ensures Swept(ring, before, rows)
  {
    hide UnfitAt, DoneAt;
    forall m | 0 <= m < i
      ensures !UnfitAt(ring, before, ks[m])
    {
      assert ks[m] == ks[..i][m];
    }
    forall k | k in before
      ensures if exists u :: UnfitAt(ring, before, u) && AtMost(u, k) then rows[k] == before[k] else DoneAt(ring, before, rows, k)
    {
      assert k in ks;
      var j :| 0 <= j < |ks| && ks[j] == k;
      if j < i {
        assert k == ks[..i][j];
        forall u | UnfitAt(ring, before, u)
          ensures !AtMost(u, k)
        {
          UnfitStored(ring, before, u);
          assert u in ks;
          var m :| 0 <= m < |ks| && ks[m] == u;
          assert Below(ks[j], ks[m]);
          BelowAsymmetric(k, u);
        }
      } else {
        assert AtMost(ks[i], k);
        if k in ks[..i] {
          var m :| 0 <= m < i && ks[m] == k;
          AscendingDistinct(ks, m, j);
        }
      }
    }
  }

  lemma UnfitStored(ring: Ring, rows: Stored, u: string)
    requires UnfitAt(ring, rows, u)
    ensures u in rows
  {
  }

  /** However a run ends, every row shows what it showed. */
  lemma SweptShowsSame(ring: Ring, a: Stored, b: Stored, k: string)
    requires Swept(ring, a, b) && k in a
    ensures ShownRow(ring, b[k]) == ShownRow(ring, a[k])
  {
    hide Covered, RowRenewed, UnfitAt, ShownRow;
    if Covered(k, a[k]) && RowRenewed(ring, a[k], b[k]) {
      RowRenewedFacts(ring, a[k], b[k]);
    }
  }

  /** A run that succeeded leaves nothing to do: a run after it succeeds, counts nothing and changes
      nothing. */
  lemma SecondRunIdle(ring: Ring, a: Stored, b: Stored, c: Stored)
    requires Swept(ring, a, b) && Swept(ring, b, c)
    requires forall u :: !UnfitAt(ring, a, u)
    ensures (forall u :: !UnfitAt(ring, b, u)) && StaleKeys(ring, b, b.Keys) == {} && c == b
  {
    hide Covered, RowRenewed, RowFit, RowStale;
    forall k | k in b
      ensures !StaleAt(ring, b, k) && !UnfitAt(ring, b, k)
    {
      assert DoneAt(ring, a, b, k);
      if Covered(k, b[k]) {
        if Covered(k, a[k]) {
          RowRenewedFacts(ring, a[k], b[k]);
          NotStaleFit(ring, b[k]);
        }
      }
    }
    forall k | k in b
      ensures c[k] == b[k]
    {
      assert DoneAt(ring, b, c, k);
      if Covered(k, b[k]) {
        assert !StaleAt(ring, b, k);
        RowRenewedFacts(ring, b[k], c[k]);
      }
    }
  }

  /** A branch whose checkpoint and diff rows were swept, wholly or in part, reads the same at every
      version: snapshots are rebuilt from diffs sealed anew and show the same plaintexts. */
  lemma VersionsReadSame(ring: Ring, r: Rows, q: Rows, v: nat)
    requires r.fulls.Keys == q.fulls.Keys && r.diffs.Keys == q.diffs.Keys
    requires forall n | n in r.fulls :: q.fulls[n] == r.fulls[n] || SnapRenewed(ring, r.fulls[n], q.fulls[n])
    requires forall n | n in r.diffs :: q.diffs[n] == r.diffs[n] || DiffRenewed(ring, r.diffs[n], q.diffs[n])
    ensures MapResult(Reader(ring), Read(r, v)) == MapResult(Reader(ring), Read(q, v))
  {
    hide Reader, SnapRenewed, DiffRenewed, MapValues, MapDiff, Read;
    forall n | n in r.fulls
      ensures MapValues(Reader(ring), r.fulls[n]) == MapValues(Reader(ring), q.fulls[n])
    {
      if q.fulls[n] != r.fulls[n] {
        SnapRenewedFacts(ring, r.fulls[n], q.fulls[n]);
      }
    }
    forall n | n in r.diffs
      ensures MapDiff(Reader(ring), r.diffs[n]) == MapDiff(Reader(ring), q.diffs[n])
    {
      if q.diffs[n] != r.diffs[n] {
        DiffRenewedFacts(ring, r.diffs[n], q.diffs[n]);
      }
    }
    ReadThrough(Reader(ring), r, q, v);
  }
}
