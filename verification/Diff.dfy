/** Snapshot differences: `compute_diff` and `apply_diff`. */
module Diff {
  import opened Model
  import opened Order

  type Item = (string, string)

  function Get(m: SnapshotMap, g: string, k: string): Option<Value> {
    if g in m && k in m[g] then Some(m[g][k]) else None
  }

  /** The same (group, key) -> value contents; empty groups do not count. */
  ghost predicate SameItems(a: SnapshotMap, b: SnapshotMap) {
    forall g, k :: Get(a, g, k) == Get(b, g, k)
  }

  ghost predicate EmptyGroup(m: SnapshotMap, g: string) {
    g in m && m[g] == map[]
  }

  // ---------------- iteration order ----------------

  ghost function InGroup(g: string, ks: seq<string>): (items: seq<Item>)
    ensures |items| == |ks| && forall i | 0 <= i < |ks| :: items[i] == (g, ks[i])
  {
    seq(|ks|, i requires 0 <= i < |ks| => (g, ks[i]))
  }

  ghost function ItemsOver(m: SnapshotMap, gs: seq<string>): (items: seq<Item>)
    requires forall g | g in gs :: g in m
  {
    if gs == [] then [] else
      var last := gs[|gs| - 1];
      ItemsOver(m, gs[..|gs| - 1]) + InGroup(last, Sorted(m[last].Keys))
  }

  /** Every item of a snapshot in the order two nested loops over it visit them. */
  ghost function Items(m: SnapshotMap): (items: seq<Item>) {
    ItemsOver(m, Sorted(m.Keys))
  }

  lemma InGroupMembers(at: string, ks: seq<string>, g: string, k: string)
    ensures (g, k) in InGroup(at, ks) <==> g == at && k in ks
  {
    var items := InGroup(at, ks);
    if g == at && k in ks {
      var i :| 0 <= i < |ks| && ks[i] == k;
      assert items[i] == (g, k);
    }
  }

  lemma {:induction false} ItemsOverMembers(m: SnapshotMap, gs: seq<string>, g: string, k: string)
    requires forall g | g in gs :: g in m
    ensures (g, k) in ItemsOver(m, gs) <==> g in gs && k in m[g]
  {
    if gs != [] {
      var last, front := gs[|gs| - 1], gs[..|gs| - 1];
      assert gs == front + [last];
      ItemsOverMembers(m, front, g, k);
      InGroupMembers(last, Sorted(m[last].Keys), g, k);
    }
  }

  lemma ItemsMembers(m: SnapshotMap, g: string, k: string)
    ensures (g, k) in Items(m) <==> Get(m, g, k).Some?
  {
    ItemsOverMembers(m, Sorted(m.Keys), g, k);
  }

  ghost predicate Distinct<T>(s: seq<T>) {
    forall i, j | 0 <= i < j < |s| :: s[i] != s[j]
  }

  lemma DistinctItemsConcat(xs: seq<Item>, ys: seq<Item>)
    requires Distinct(xs) && Distinct(ys)
    requires forall i, j | 0 <= i < |xs| && 0 <= j < |ys| :: xs[i].0 != ys[j].0
    ensures Distinct(xs + ys)
  {
  }

  lemma InGroupDistinct(g: string, ks: seq<string>)
    requires Ascending(ks)
    ensures Distinct(InGroup(g, ks))
  {
    forall i, j | 0 <= i < j < |ks|
      ensures ks[i] != ks[j]
    {
      BelowAsymmetric(ks[i], ks[j]);
    }
  }

  lemma {:induction false} ItemsOverDistinct(m: SnapshotMap, gs: seq<string>)
    requires forall g | g in gs :: g in m
    requires Ascending(gs)
    ensures Distinct(ItemsOver(m, gs))
  {
    if gs != [] {
      var last, front := gs[|gs| - 1], gs[..|gs| - 1];
      ItemsOverDistinct(m, front);
      var head, tail := ItemsOver(m, front), InGroup(last, Sorted(m[last].Keys));
      InGroupDistinct(last, Sorted(m[last].Keys));
      forall i, j | 0 <= i < |head| && 0 <= j < |tail|
        ensures head[i].0 != tail[j].0
      {
        ItemsOverMembers(m, front, head[i].0, head[i].1);
        assert (head[i].0, head[i].1) == head[i];
        if head[i].0 == last {
          var n :| 0 <= n < |front| && front[n] == last;
          AscendingDistinct(gs, n, |gs| - 1);
        }
      }
      DistinctItemsConcat(head, tail);
    }
  }

  // ---------------- compute_diff ----------------

  ghost function UpsertAt(before: SnapshotMap, after: SnapshotMap, it: Item): (d: seq<DiffEntry>) {
    var v := Get(after, it.0, it.1);
    if v.Some? && Get(before, it.0, it.1) != v then [DiffEntry(it.0, it.1, Upsert, v)] else []
  }

  ghost function DeleteAt(after: SnapshotMap, it: Item): (d: seq<DiffEntry>) {
    if Get(after, it.0, it.1).None? then [DiffEntry(it.0, it.1, Delete, None)] else []
  }

  ghost function Upserts(before: SnapshotMap, after: SnapshotMap, items: seq<Item>): (d: seq<DiffEntry>) {
    if items == [] then [] else
      Upserts(before, after, items[..|items| - 1]) + UpsertAt(before, after, items[|items| - 1])
  }

  ghost function Deletes(after: SnapshotMap, items: seq<Item>): (d: seq<DiffEntry>) {
    if items == [] then [] else
      Deletes(after, items[..|items| - 1]) + DeleteAt(after, items[|items| - 1])
  }

  /** Upserts in the new snapshot's order, then deletes in the old snapshot's order. */
  ghost function Changes(before: SnapshotMap, after: SnapshotMap): (d: seq<DiffEntry>) {
    Upserts(before, after, Items(after)) + Deletes(after, Items(before))
  }

  lemma UpsertsSnoc(before: SnapshotMap, after: SnapshotMap, items: seq<Item>, it: Item)
    ensures Upserts(before, after, items + [it]) == Upserts(before, after, items) + UpsertAt(before, after, it)
  {
    assert (items + [it])[..|items|] == items;
  }

  lemma DeletesSnoc(after: SnapshotMap, items: seq<Item>, it: Item)
    ensures Deletes(after, items + [it]) == Deletes(after, items) + DeleteAt(after, it)
  {
    assert (items + [it])[..|items|] == items;
  }

  /** One group's visit, key by key. */
  lemma InGroupStep(g: string, ks: seq<string>, j: nat)
    requires j < |ks|
    ensures InGroup(g, ks[..j + 1]) == InGroup(g, ks[..j]) + [(g, ks[j])]
  {
  }

  lemma ItemsOverStep(m: SnapshotMap, gs: seq<string>, i: nat)
    requires (forall g | g in gs :: g in m) && i < |gs|
    ensures forall g | g in gs[..i] :: g in m
    ensures forall g | g in gs[..i + 1] :: g in m
    ensures ItemsOver(m, gs[..i + 1]) == ItemsOver(m, gs[..i]) + InGroup(gs[i], Sorted(m[gs[i]].Keys))
  {
    assert gs[..i + 1][..i] == gs[..i];
  }

  lemma {:induction false} UpsertsConcat(before: SnapshotMap, after: SnapshotMap, xs: seq<Item>, ys: seq<Item>)
    ensures Upserts(before, after, xs + ys) == Upserts(before, after, xs) + Upserts(before, after, ys)
  {
    if ys == [] {
      assert xs + ys == xs;
    } else {
      var front, last := ys[..|ys| - 1], ys[|ys| - 1];
      assert xs + ys == (xs + front) + [last];
      UpsertsSnoc(before, after, xs + front, last);
      UpsertsConcat(before, after, xs, front);
    }
  }

  lemma {:induction false} DeletesConcat(after: SnapshotMap, xs: seq<Item>, ys: seq<Item>)
    ensures Deletes(after, xs + ys) == Deletes(after, xs) + Deletes(after, ys)
  {
    if ys == [] {
      assert xs + ys == xs;
    } else {
      var front, last := ys[..|ys| - 1], ys[|ys| - 1];
      assert xs + ys == (xs + front) + [last];
      DeletesSnoc(after, xs + front, last);
      DeletesConcat(after, xs, front);
    }
  }

  /** The inner loop over one group of the new snapshot, whose keys are `ks`. */
  method GroupUpserts(before: SnapshotMap, after: SnapshotMap, g: string, ks: seq<string>)
    returns (out: seq<DiffEntry>)
    requires g in after && forall k | k in ks :: k in after[g]
    ensures out == Upserts(before, after, InGroup(g, ks))
  {
    out := [];
    for j := 0 to |ks|
      invariant out == Upserts(before, after, InGroup(g, ks[..j]))
    {
      var k := ks[j];
      InGroupStep(g, ks, j);
      UpsertsSnoc(before, after, InGroup(g, ks[..j]), (g, k));
      assert Some(after[g][k]) == Get(after, g, k);
      if Get(before, g, k) != Some(after[g][k]) {
        out := out + [DiffEntry(g, k, Upsert, Some(after[g][k]))];
      }
    }
    assert ks[..|ks|] == ks;
  }

  /** The inner loop over one group of the old snapshot, whose keys are `ks`. */
  method GroupDeletes(after: SnapshotMap, g: string, ks: seq<string>)
    returns (out: seq<DiffEntry>)
    ensures out == Deletes(after, InGroup(g, ks))
  {
    out := [];
    for j := 0 to |ks|
      invariant out == Deletes(after, InGroup(g, ks[..j]))
    {
      var k := ks[j];
      InGroupStep(g, ks, j);
      DeletesSnoc(after, InGroup(g, ks[..j]), (g, k));
      if !(g in after && k in after[g]) {
        out := out + [DiffEntry(g, k, Delete, None)];
      }
    }
    assert ks[..|ks|] == ks;
  }

  lemma UpsertsStep(before: SnapshotMap, after: SnapshotMap, gs: seq<string>, i: nat)
    requires (forall g | g in gs :: g in after) && i < |gs|
    ensures (forall g | g in gs[..i] :: g in after) && (forall g | g in gs[..i + 1] :: g in after)
    ensures Upserts(before, after, ItemsOver(after, gs[..i + 1]))
            == Upserts(before, after, ItemsOver(after, gs[..i]))
               + Upserts(before, after, InGroup(gs[i], Sorted(after[gs[i]].Keys)))
  {
    ItemsOverStep(after, gs, i);
    UpsertsConcat(before, after, ItemsOver(after, gs[..i]), InGroup(gs[i], Sorted(after[gs[i]].Keys)));
  }

  lemma DeletesStep(before: SnapshotMap, after: SnapshotMap, gs: seq<string>, i: nat)
    requires (forall g | g in gs :: g in before) && i < |gs|
    ensures (forall g | g in gs[..i] :: g in before) && (forall g | g in gs[..i + 1] :: g in before)
    ensures Deletes(after, ItemsOver(before, gs[..i + 1]))
            == Deletes(after, ItemsOver(before, gs[..i]))
               + Deletes(after, InGroup(gs[i], Sorted(before[gs[i]].Keys)))
  {
    ItemsOverStep(before, gs, i);
    DeletesConcat(after, ItemsOver(before, gs[..i]), InGroup(gs[i], Sorted(before[gs[i]].Keys)));
  }

  /** The outer loop over the new snapshot, whose groups are `gs`. */
  method AllUpserts(before: SnapshotMap, after: SnapshotMap, gs: seq<string>) returns (out: seq<DiffEntry>)
    requires forall g | g in gs :: g in after
    ensures out == Upserts(before, after, ItemsOver(after, gs))
  {
    out := [];
    for i := 0 to |gs|
      invariant forall g | g in gs[..i] :: g in after
      invariant out == Upserts(before, after, ItemsOver(after, gs[..i]))
    {
      UpsertsStep(before, after, gs, i);
      var ks := KeysInOrder(after[gs[i]].Keys);
      var part := GroupUpserts(before, after, gs[i], ks);
      out := out + part;
    }
    assert gs[..|gs|] == gs;
  }

  /** The outer loop over the old snapshot, whose groups are `gs`. */
  method AllDeletes(before: SnapshotMap, after: SnapshotMap, gs: seq<string>) returns (out: seq<DiffEntry>)
    requires forall g | g in gs :: g in before
    ensures out == Deletes(after, ItemsOver(before, gs))
  {
    out := [];
    for i := 0 to |gs|
      invariant forall g | g in gs[..i] :: g in before
      invariant out == Deletes(after, ItemsOver(before, gs[..i]))
    {
      DeletesStep(before, after, gs, i);
      var ks := KeysInOrder(before[gs[i]].Keys);
      var part := GroupDeletes(after, gs[i], ks);
      out := out + part;
    }
    assert gs[..|gs|] == gs;
  }

  /** `compute_diff`: the first nested loop pushes the upserts, the second the deletes. */
  method ComputeDiff(before: SnapshotMap, after: SnapshotMap) returns (out: seq<DiffEntry>)
    ensures out == Changes(before, after)
  {
    var gs := KeysInOrder(after.Keys);
    out := AllUpserts(before, after, gs);
    gs := KeysInOrder(before.Keys);
    var removed := AllDeletes(before, after, gs);
    out := out + removed;
  }

  /** The entry a change between two snapshots calls for at an item that differs. */
  function EntryFor(after: SnapshotMap, g: string, k: string): (e: DiffEntry) {
    var v := Get(after, g, k);
    DiffEntry(g, k, if v.Some? then Upsert else Delete, v)
  }

  lemma {:induction false} UpsertsMembers(before: SnapshotMap, after: SnapshotMap, items: seq<Item>, e: DiffEntry)
    ensures e in Upserts(before, after, items) <==>
            (e.group, e.key) in items && e == EntryFor(after, e.group, e.key) && e.kind == Upsert
            && Get(before, e.group, e.key) != Get(after, e.group, e.key)
  {
    if items != [] {
      var front, last := items[..|items| - 1], items[|items| - 1];
      UpsertsMembers(before, after, front, e);
      assert items == front + [last];
    }
  }

  lemma {:induction false} DeletesMembers(after: SnapshotMap, items: seq<Item>, e: DiffEntry)
    ensures e in Deletes(after, items) <==>
            (e.group, e.key) in items && e == EntryFor(after, e.group, e.key) && e.kind == Delete
  {
    if items != [] {
      var front, last := items[..|items| - 1], items[|items| - 1];
      DeletesMembers(after, front, e);
      assert items == front + [last];
    }
  }

  /** The diff holds, for each item whose value differs, the one entry that sets the new value,
      and nothing else. */
  lemma ChangesMembers(before: SnapshotMap, after: SnapshotMap, e: DiffEntry)
    ensures e in Changes(before, after) <==>
            e == EntryFor(after, e.group, e.key) && Get(before, e.group, e.key) != Get(after, e.group, e.key)
  {
    UpsertsMembers(before, after, Items(after), e);
    DeletesMembers(after, Items(before), e);
    ItemsMembers(after, e.group, e.key);
    ItemsMembers(before, e.group, e.key);
  }

  function At(e: DiffEntry): Item {
    (e.group, e.key)
  }

  /** No item is named twice. */
  ghost predicate NamesOnce(d: seq<DiffEntry>) {
    forall i, j | 0 <= i < j < |d| :: At(d[i]) != At(d[j])
  }

  lemma {:induction false} UpsertsDistinct(before: SnapshotMap, after: SnapshotMap, items: seq<Item>)
    requires Distinct(items)
    ensures NamesOnce(Upserts(before, after, items))
  {
    if items != [] {
      var front, last := items[..|items| - 1], items[|items| - 1];
      UpsertsDistinct(before, after, front);
      var d := Upserts(before, after, front);
      forall i | 0 <= i < |d|
        ensures At(d[i]) != last
      {
        UpsertsMembers(before, after, front, d[i]);
      }
    }
  }

  lemma {:induction false} DeletesDistinct(after: SnapshotMap, items: seq<Item>)
    requires Distinct(items)
    ensures NamesOnce(Deletes(after, items))
  {
    if items != [] {
      var front, last := items[..|items| - 1], items[|items| - 1];
      DeletesDistinct(after, front);
      var d := Deletes(after, front);
      forall i | 0 <= i < |d|
        ensures At(d[i]) != last
      {
        DeletesMembers(after, front, d[i]);
      }
    }
  }

  lemma DistinctConcat(u: seq<DiffEntry>, x: seq<DiffEntry>)
    requires NamesOnce(u) && NamesOnce(x)
    requires forall i, j | 0 <= i < |u| && 0 <= j < |x| :: At(u[i]) != At(x[j])
    ensures NamesOnce(u + x)
  {
  }

  lemma ChangesDistinct(before: SnapshotMap, after: SnapshotMap)
    ensures NamesOnce(Changes(before, after))
  {
    var u, x := Upserts(before, after, Items(after)), Deletes(after, Items(before));
    ItemsOverDistinct(after, Sorted(after.Keys));
    ItemsOverDistinct(before, Sorted(before.Keys));
    UpsertsDistinct(before, after, Items(after));
    DeletesDistinct(after, Items(before));
    forall i, j | 0 <= i < |u| && 0 <= j < |x|
      ensures At(u[i]) != At(x[j])
    {
      UpsertsMembers(before, after, Items(after), u[i]);
      DeletesMembers(after, Items(before), x[j]);
    }
    DistinctConcat(u, x);
  }

  lemma ChangesName(before: SnapshotMap, after: SnapshotMap, g: string, k: string)
    ensures (exists e :: e in Changes(before, after) && At(e) == (g, k)) <==> Get(before, g, k) != Get(after, g, k)
  {
    var d := Changes(before, after);
    ChangesMembers(before, after, EntryFor(after, g, k));
    forall e | e in d && At(e) == (g, k)
      ensures Get(before, g, k) != Get(after, g, k)
    {
      ChangesMembers(before, after, e);
    }
    if Get(before, g, k) != Get(after, g, k) {
      assert EntryFor(after, g, k) in d && At(EntryFor(after, g, k)) == (g, k);
    }
  }

  /** Minimality: each item is named at most once, an item is named exactly when it differs, and
      the diff is empty exactly when the contents are the same. */
  lemma ChangesMinimal(before: SnapshotMap, after: SnapshotMap)
    ensures var d := Changes(before, after);
            && NamesOnce(d)
            && (forall g, k :: (exists e :: e in d && At(e) == (g, k)) <==> Get(before, g, k) != Get(after, g, k))
            && (d == [] <==> SameItems(before, after))
  {
    var d := Changes(before, after);
    ChangesDistinct(before, after);
    forall g, k
      ensures (exists e :: e in d && At(e) == (g, k)) <==> Get(before, g, k) != Get(after, g, k)
    {
      ChangesName(before, after, g, k);
    }
    if d != [] {
      ChangesMembers(before, after, d[0]);
    }
  }

  // ---------------- apply_diff ----------------

  ghost function ApplyEntry(m: SnapshotMap, d: DiffEntry): (r: SnapshotMap) {
    match d.kind
    case Upsert =>
      if d.newValue.None? then m else
        var items := if d.group in m then m[d.group] else map[];
        m[d.group := items[d.key := d.newValue.value]]
    case Delete =>
      if d.group !in m then m else
        var items := m[d.group] - {d.key};
        if items == map[] then m - {d.group} else m[d.group := items]
  }

  ghost function Apply(m: SnapshotMap, ds: seq<DiffEntry>): (r: SnapshotMap) {
    if ds == [] then m else ApplyEntry(Apply(m, ds[..|ds| - 1]), ds[|ds| - 1])
  }

  /** Upserts carry a value and deletes carry none, as every computed diff does. */
  predicate WellFormed(d: DiffEntry) {
    d.kind.Upsert? <==> d.newValue.Some?
  }

  lemma ApplySnoc(m: SnapshotMap, ds: seq<DiffEntry>, d: DiffEntry)
    ensures Apply(m, ds + [d]) == ApplyEntry(Apply(m, ds), d)
  {
    assert (ds + [d])[..|ds|] == ds;
  }

  /** `apply_diff` unwraps the value of every upsert, so it demands well-formed entries. */
  method ApplyDiff(base: SnapshotMap, diff: seq<DiffEntry>) returns (out: SnapshotMap)
    requires forall d | d in diff :: WellFormed(d)
    ensures out == Apply(base, diff)
  {
    out := base;
    for i := 0 to |diff|
      invariant out == Apply(base, diff[..i])
    {
      var d := diff[i];
      assert d in diff;
      assert diff[..i + 1] == diff[..i] + [d];
      ApplySnoc(base, diff[..i], d);
      match d.kind {
        case Upsert =>
          if d.group !in out {
            out := out[d.group := map[]];
          }
          out := out[d.group := out[d.group][d.key := d.newValue.value]];
          assert out == ApplyEntry(Apply(base, diff[..i]), d);
        case Delete =>
          if d.group in out {
            var items := out[d.group] - {d.key};
            out := out[d.group := items];
            if items == map[] {
              out := out - {d.group};
            }
          }
          assert out == ApplyEntry(Apply(base, diff[..i]), d);
      }
    }
    assert diff[..|diff|] == diff;
  }

  lemma ApplyEntryEffect(m: SnapshotMap, d: DiffEntry, g: string, k: string)
    requires WellFormed(d)
    ensures Get(ApplyEntry(m, d), g, k) == if At(d) == (g, k) then d.newValue else Get(m, g, k)
    ensures EmptyGroup(ApplyEntry(m, d), g) <==> EmptyGroup(m, g) && d.group != g
  {
    if d.kind == Delete && d.group in m {
      var items := m[d.group] - {d.key};
      assert k in items <==> k in m[d.group] && k != d.key;
    }
    if d.kind == Upsert {
      assert d.key in ApplyEntry(m, d)[d.group];
    }
  }

  /** Where every entry for an item sets the same value `v`, applying sets the item to `v`;
      where there is none, applying leaves it alone. */
  lemma {:induction false} ApplyEffect(m: SnapshotMap, ds: seq<DiffEntry>, g: string, k: string, v: Option<Value>)
    requires forall d | d in ds :: WellFormed(d)
    requires forall d | d in ds && At(d) == (g, k) :: d.newValue == v
    ensures Get(Apply(m, ds), g, k) == if exists d :: d in ds && At(d) == (g, k) then v else Get(m, g, k)
    ensures EmptyGroup(Apply(m, ds), g) <==> EmptyGroup(m, g) && forall d | d in ds :: d.group != g
  {
    if ds != [] {
      var front, last := ds[..|ds| - 1], ds[|ds| - 1];
      assert ds == front + [last];
      assert last in ds;
      ApplyEffect(m, front, g, k, v);
      ApplyEntryEffect(Apply(m, front), last, g, k);
    }
  }

  /** Applying a diff to any base moves exactly the items that differ to their new values. */
  lemma ChangesEffect(base: SnapshotMap, before: SnapshotMap, after: SnapshotMap, g: string, k: string)
    ensures Get(Apply(base, Changes(before, after)), g, k)
            == if Get(before, g, k) != Get(after, g, k) then Get(after, g, k) else Get(base, g, k)
  {
    var d := Changes(before, after);
    forall e | e in d
      ensures WellFormed(e) && (At(e) == (g, k) ==> e.newValue == Get(after, g, k))
    {
      ChangesMembers(before, after, e);
    }
    ApplyEffect(base, d, g, k, Get(after, g, k));
    ChangesName(before, after, g, k);
  }

  /** Round trip on contents, for every pair of snapshots. */
  lemma RoundTrip(before: SnapshotMap, after: SnapshotMap)
    ensures SameItems(Apply(before, Changes(before, after)), after)
  {
    forall g, k
      ensures Get(Apply(before, Changes(before, after)), g, k) == Get(after, g, k)
    {
      ChangesEffect(before, before, after, g, k);
    }
  }

  lemma SameItemsLiteral(a: SnapshotMap, b: SnapshotMap)
    requires SameItems(a, b)
    requires forall g :: EmptyGroup(a, g) <==> EmptyGroup(b, g)
    ensures a == b
  {
    forall g
      ensures g in a ==> g in b && a[g] == b[g]
      ensures g in b ==> g in a && a[g] == b[g]
    {
      GroupCarriesOver(a, b, g);
      GroupCarriesOver(b, a, g);
    }
  }

  lemma GroupCarriesOver(a: SnapshotMap, b: SnapshotMap, g: string)
    requires SameItems(a, b)
    requires EmptyGroup(a, g) ==> EmptyGroup(b, g)
    ensures g in a ==> g in b && a[g] == b[g]
  {
    if g in a && a[g] != map[] {
      forall k
        ensures k in a[g] <==> g in b && k in b[g]
        ensures k in a[g] ==> a[g][k] == b[g][k]
      {
        assert Get(a, g, k) == Get(b, g, k);
      }
      assert g in b by {
        assert a[g].Keys != {};
        var k :| k in a[g];
      }
    }
  }

  lemma NewGroupNamed(before: SnapshotMap, after: SnapshotMap, g: string)
    requires EmptyGroup(before, g) && g in after && after[g] != map[]
    ensures exists e :: e in Changes(before, after) && e.group == g
  {
    assert after[g].Keys != {};
    var k :| k in after[g];
    ChangesMembers(before, after, EntryFor(after, g, k));
    assert EntryFor(after, g, k) in Changes(before, after);
  }

  /** The empty groups left by a round trip. */
  lemma RoundTripEmptyGroups(before: SnapshotMap, after: SnapshotMap, g: string)
    ensures EmptyGroup(Apply(before, Changes(before, after)), g)
            <==> EmptyGroup(before, g) && (g in after ==> after[g] == map[])
  {
    var d := Changes(before, after);
    forall e | e in d
      ensures WellFormed(e) && (At(e) == (g, "") ==> e.newValue == Get(after, g, ""))
      ensures EmptyGroup(before, g) && (g in after ==> after[g] == map[]) ==> e.group != g
    {
      ChangesMembers(before, after, e);
    }
    ApplyEffect(before, d, g, "", Get(after, g, ""));
    if EmptyGroup(before, g) && g in after && after[g] != map[] {
      NewGroupNamed(before, after, g);
    }
  }

  /** The round trip is literal exactly when every empty group of the new snapshot is already an
      empty group of the old one and no empty group of the old one is missing from the new one;
      in particular when neither has an empty group. */
  lemma RoundTripLiteral(before: SnapshotMap, after: SnapshotMap)
    ensures Apply(before, Changes(before, after)) == after <==>
            forall g :: (EmptyGroup(after, g) ==> EmptyGroup(before, g)) && (EmptyGroup(before, g) ==> g in after)
  {
    var r := Apply(before, Changes(before, after));
    RoundTrip(before, after);
    forall g
      ensures EmptyGroup(r, g) <==> EmptyGroup(before, g) && (g in after ==> after[g] == map[])
    {
      RoundTripEmptyGroups(before, after, g);
    }
    if r == after {
      assert forall g :: EmptyGroup(r, g) <==> EmptyGroup(after, g);
    } else if forall g :: (EmptyGroup(after, g) ==> EmptyGroup(before, g)) && (EmptyGroup(before, g) ==> g in after) {
      SameItemsLiteral(r, after);
    }
  }

  // ---------------- chains of snapshots ----------------

  ghost function ApplyAll(m: SnapshotMap, dss: seq<seq<DiffEntry>>): (r: SnapshotMap) {
    if dss == [] then m else Apply(ApplyAll(m, dss[..|dss| - 1]), dss[|dss| - 1])
  }

  /** The diffs between neighbours of a chain that starts at `base`. */
  ghost function Steps(base: SnapshotMap, chain: seq<SnapshotMap>): (dss: seq<seq<DiffEntry>>)
    ensures |dss| == |chain|
  {
    var n := |chain|;
    if n == 0 then [] else
      Steps(base, chain[..n - 1]) + [Changes(if n == 1 then base else chain[n - 2], chain[n - 1])]
  }

  ghost predicate Occurs(chain: seq<SnapshotMap>, g: string, k: string) {
    exists s :: s in chain && Get(s, g, k).Some?
  }

  lemma OccursSnoc(front: seq<SnapshotMap>, last: SnapshotMap, g: string, k: string)
    ensures Occurs(front + [last], g, k) <==> Occurs(front, g, k) || Get(last, g, k).Some?
  {
    assert last in front + [last];
    assert forall s :: s in front + [last] <==> s in front || s == last;
  }

  lemma StepsSnoc(m: SnapshotMap, base: SnapshotMap, front: seq<SnapshotMap>, last: SnapshotMap)
    ensures ApplyAll(m, Steps(base, front + [last]))
            == Apply(ApplyAll(m, Steps(base, front)),
                     Changes(if front == [] then base else front[|front| - 1], last))
  {
    hide Changes, Apply;
    var chain := front + [last];
    assert chain[..|front|] == front;
    assert front != [] ==> chain[|front| - 1] == front[|front| - 1];
    var dss := Steps(base, chain);
    assert dss[..|front|] == Steps(base, front);
  }

  /** Folding the diffs of a chain over a base that need not be where the chain starts: an item
      that is in the start or anywhere along the chain ends with its newest value, and any other
      item keeps the value the base gave it, provided the base agrees with the start. */
  lemma {:induction false} StepsEffect(m: SnapshotMap, base: SnapshotMap, chain: seq<SnapshotMap>, g: string, k: string)
    requires chain != []
    requires Get(base, g, k).Some? ==> Get(m, g, k) == Get(base, g, k)
    ensures Get(ApplyAll(m, Steps(base, chain)), g, k)
            == if Get(base, g, k).Some? || Occurs(chain, g, k) then Get(chain[|chain| - 1], g, k)
               else Get(m, g, k)
  {
    hide Changes, Apply;
    var n := |chain| - 1;
    var front, last := chain[..n], chain[n];
    assert chain == front + [last];
    var mid := ApplyAll(m, Steps(base, front));
    StepsSnoc(m, base, front, last);
    OccursSnoc(front, last, g, k);
    ChangesEffect(mid, if n == 0 then base else front[n - 1], last, g, k);
    if n > 0 {
      StepsEffect(m, base, front, g, k);
      assert front[n - 1] in front;
    }
  }
}
