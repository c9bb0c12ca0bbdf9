/** Masking of secrets before they leave the server, and rewriting of values in general. */
module Wire {
  import opened Model
  import opened Order
  import opened Diff

  // ---------------- rewriting every value ----------------

  function MapGroup(f: Value -> Value, items: map<string, Value>): (r: map<string, Value>) {
    map k | k in items :: f(items[k])
  }

  function MapValues(f: Value -> Value, m: SnapshotMap): (r: SnapshotMap) {
    map g | g in m :: MapGroup(f, m[g])
  }

  function MapOption(f: Value -> Value, v: Option<Value>): Option<Value> {
    if v.Some? then Some(f(v.value)) else None
  }

  function MapEntry(f: Value -> Value, d: DiffEntry): DiffEntry {
    d.(newValue := MapOption(f, d.newValue))
  }

  function MapDiff(f: Value -> Value, ds: seq<DiffEntry>): (r: seq<DiffEntry>)
    ensures |r| == |ds| && forall i | 0 <= i < |ds| :: r[i] == MapEntry(f, ds[i])
  {
    seq(|ds|, i requires 0 <= i < |ds| => MapEntry(f, ds[i]))
  }

  lemma MapGroupSteps(f: Value -> Value, items: map<string, Value>, k: string, v: Value)
    ensures MapGroup(f, items[k := v]) == MapGroup(f, items)[k := f(v)]
    ensures MapGroup(f, items - {k}) == MapGroup(f, items) - {k}
    ensures MapGroup(f, items) == map[] <==> items == map[]
  {
    assert MapGroup(f, items).Keys == items.Keys;
  }

  lemma MapEntryApply(f: Value -> Value, m: SnapshotMap, d: DiffEntry)
    ensures MapValues(f, ApplyEntry(m, d)) == ApplyEntry(MapValues(f, m), MapEntry(f, d))
  {
    var items := if d.group in m then m[d.group] else map[];
    var v := if d.newValue.Some? then d.newValue.value else Str("");
    MapGroupSteps(f, items, d.key, v);
    MapGroupSteps(f, items - {d.key}, d.key, v);
    MapGroupSteps(f, map[], d.key, v);
    assert d.group !in m ==> MapGroup(f, items) == map[];
    if d.kind == Upsert {
      assert d.newValue.Some? ==>
          MapValues(f, m[d.group := items[d.key := v]]) == MapValues(f, m)[d.group := MapGroup(f, items)[d.key := f(v)]];
    } else if d.group in m {
      assert MapValues(f, m - {d.group}) == MapValues(f, m) - {d.group};
      assert MapValues(f, m[d.group := items - {d.key}]) == MapValues(f, m)[d.group := MapGroup(f, items) - {d.key}];
    }
  }

  /** Homomorphism: rewriting the values commutes with applying a diff, whatever the rewriting. */
  lemma {:induction false} MapApply(f: Value -> Value, m: SnapshotMap, ds: seq<DiffEntry>)
    ensures MapValues(f, Apply(m, ds)) == Apply(MapValues(f, m), MapDiff(f, ds))
  {
    if ds != [] {
      var front, last := ds[..|ds| - 1], ds[|ds| - 1];
      MapApply(f, m, front);
      MapEntryApply(f, Apply(m, front), last);
      assert MapDiff(f, ds)[..|ds| - 1] == MapDiff(f, front);
    }
  }

  lemma MapGet(f: Value -> Value, m: SnapshotMap, g: string, k: string)
    ensures Get(MapValues(f, m), g, k) == MapOption(f, Get(m, g, k))
  {
  }

  lemma {:induction false} MapItemsOver(f: Value -> Value, m: SnapshotMap, gs: seq<string>)
    requires forall g | g in gs :: g in m
    ensures ItemsOver(MapValues(f, m), gs) == ItemsOver(m, gs)
  {
    if gs != [] {
      var last := gs[|gs| - 1];
      MapItemsOver(f, m, gs[..|gs| - 1]);
      assert MapValues(f, m)[last].Keys == m[last].Keys;
    }
  }

  lemma MapItems(f: Value -> Value, m: SnapshotMap)
    ensures Items(MapValues(f, m)) == Items(m)
  {
    assert MapValues(f, m).Keys == m.Keys;
    MapItemsOver(f, m, Sorted(m.Keys));
  }

  // ---------------- subsequences ----------------

  predicate Subsequence<T(==)>(a: seq<T>, b: seq<T>) {
    a == [] ||
    (b != [] &&
     ((a[|a| - 1] == b[|b| - 1] && Subsequence(a[..|a| - 1], b[..|b| - 1])) || Subsequence(a, b[..|b| - 1])))
  }

  lemma SubsequenceSnoc<T>(a: seq<T>, b: seq<T>, x: T)
    requires Subsequence(a, b)
    ensures Subsequence(a, b + [x]) && Subsequence(a + [x], b + [x])
  {
    assert (b + [x])[..|b|] == b && (a + [x])[..|a|] == a;
  }

  lemma {:induction false} SubsequenceAppend<T>(a: seq<T>, b: seq<T>, c: seq<T>)
    requires Subsequence(a, b)
    ensures Subsequence(a + c, b + c)
  {
    if c == [] {
      assert a + c == a && b + c == b;
    } else {
      var front, last := c[..|c| - 1], c[|c| - 1];
      SubsequenceAppend(a, b, front);
      SubsequenceSnoc(a + front, b + front, last);
      assert a + c == (a + front) + [last] && b + c == (b + front) + [last];
    }
  }

  lemma SubsequenceWiden<T>(a: seq<T>, b: seq<T>, c: seq<T>)
    requires Subsequence(a, b) && |c| <= 1
    ensures Subsequence(a, b + c)
  {
    if c == [] {
      assert b + c == b;
    } else {
      SubsequenceSnoc(a, b, c[0]);
      assert c == [c[0]];
    }
  }

  lemma MapUpsertAt(f: Value -> Value, a: SnapshotMap, b: SnapshotMap, it: Item)
    ensures var w := UpsertAt(MapValues(f, a), MapValues(f, b), it);
            w == [] || w == MapDiff(f, UpsertAt(a, b, it))
    ensures |UpsertAt(a, b, it)| <= 1
  {
    MapGet(f, a, it.0, it.1);
    MapGet(f, b, it.0, it.1);
  }

  lemma {:induction false} MapUpserts(f: Value -> Value, a: SnapshotMap, b: SnapshotMap, items: seq<Item>)
    ensures Subsequence(Upserts(MapValues(f, a), MapValues(f, b), items), MapDiff(f, Upserts(a, b, items)))
  {
    if items != [] {
      var front, it := items[..|items| - 1], items[|items| - 1];
      MapUpserts(f, a, b, front);
      MapUpsertAt(f, a, b, it);
      var small, whole := Upserts(MapValues(f, a), MapValues(f, b), front), Upserts(a, b, front);
      var w := UpsertAt(MapValues(f, a), MapValues(f, b), it);
      var u := UpsertAt(a, b, it);
      assert MapDiff(f, whole + u) == MapDiff(f, whole) + MapDiff(f, u);
      if w == [] {
        assert small + w == small;
        SubsequenceWiden(small, MapDiff(f, whole), MapDiff(f, u));
      } else {
        SubsequenceAppend(small, MapDiff(f, whole), w);
      }
    }
  }

  lemma {:induction false} MapDeletes(f: Value -> Value, b: SnapshotMap, items: seq<Item>)
    ensures Deletes(MapValues(f, b), items) == MapDiff(f, Deletes(b, items))
  {
    if items != [] {
      var front, it := items[..|items| - 1], items[|items| - 1];
      MapDeletes(f, b, front);
      MapGet(f, b, it.0, it.1);
      assert MapDiff(f, Deletes(b, items)) == MapDiff(f, Deletes(b, front)) + MapDiff(f, DeleteAt(b, it));
    }
  }

  /** The diff of two rewritten snapshots is a subsequence of the rewritten diff: rewriting can
      make a change invisible, but invents none and reorders none. */
  lemma MapChanges(f: Value -> Value, a: SnapshotMap, b: SnapshotMap)
    ensures Subsequence(Changes(MapValues(f, a), MapValues(f, b)), MapDiff(f, Changes(a, b)))
  {
    hide Items, Upserts, Deletes, MapValues, Subsequence;
    MapItems(f, a);
    MapItems(f, b);
    MapUpserts(f, a, b, Items(b));
    MapDeletes(f, b, Items(a));
    var u, x := Upserts(a, b, Items(b)), Deletes(b, Items(a));
    SubsequenceAppend(Upserts(MapValues(f, a), MapValues(f, b), Items(b)), MapDiff(f, u), MapDiff(f, x));
    assert MapDiff(f, u + x) == MapDiff(f, u) + MapDiff(f, x);
  }

  // ---------------- masking ----------------

  function MaskedValue(v: Value): Value {
    if v.Secret? then Str("***") else v
  }

  function Masked(m: SnapshotMap): SnapshotMap {
    MapValues(MaskedValue, m)
  }

  function MaskDiffEntry(d: DiffEntry): DiffEntry {
    if d.newValue.Some? then d.(newValue := Some(MaskedValue(d.newValue.value))) else d
  }

  function MaskDiff(ds: seq<DiffEntry>): (r: seq<DiffEntry>) {
    seq(|ds|, i requires 0 <= i < |ds| => MaskDiffEntry(ds[i]))
  }

  function MaskEventForWire(e: PublishEvent): PublishEvent {
    e.(changes := MaskDiff(e.changes))
  }

  /** A masked watcher: masking the result of a diff is applying the masked diff to the masked
      base, and the diff of the masked snapshots is a subsequence of the masked diff. */
  lemma MaskingHomomorphism(m: SnapshotMap, ds: seq<DiffEntry>, a: SnapshotMap, b: SnapshotMap)
    ensures Masked(Apply(m, ds)) == Apply(Masked(m), MaskDiff(ds))
    ensures Subsequence(Changes(Masked(a), Masked(b)), MaskDiff(Changes(a, b)))
  {
    hide Changes, Apply, Subsequence, MapValues;
    MapApply(MaskedValue, m, ds);
    MapChanges(MaskedValue, a, b);
    assert MapDiff(MaskedValue, ds) == MaskDiff(ds);
    assert MapDiff(MaskedValue, Changes(a, b)) == MaskDiff(Changes(a, b));
  }

  /** Masking shows a secret as three stars and everything else as it is. */
  lemma MaskingExact(m: SnapshotMap, e: PublishEvent, g: string, k: string, i: nat)
    ensures Get(Masked(m), g, k) ==
            match Get(m, g, k)
            case None => None
            case Some(Secret(_)) => Some(Str("***"))
            case Some(v) => Some(v)
    ensures var w := MaskEventForWire(e); |w.changes| == |e.changes| && w == e.(changes := w.changes)
    ensures i < |e.changes| ==>
              var d, w := e.changes[i], MaskEventForWire(e).changes[i];
              w == if d.newValue.Some? && d.newValue.value.Secret? then d.(newValue := Some(Str("***"))) else d
  {
    MapGet(MaskedValue, m, g, k);
  }

  /** No ciphertext survives masking, in a snapshot or in the changes of an event. */
  lemma MaskingHidesSecrets(m: SnapshotMap, e: PublishEvent, g: string, k: string, i: nat)
    ensures Get(Masked(m), g, k).Some? ==> !Get(Masked(m), g, k).value.Secret?
    ensures i < |e.changes| ==>
              (var v := MaskEventForWire(e).changes[i].newValue; v.Some? ==> !v.value.Secret?)
  {
  }

  function MaskedSteps(dss: seq<seq<DiffEntry>>): (r: seq<seq<DiffEntry>>) {
    seq(|dss|, i requires 0 <= i < |dss| => MaskDiff(dss[i]))
  }

  lemma {:induction false} MaskApplyAll(m: SnapshotMap, dss: seq<seq<DiffEntry>>)
    ensures Masked(ApplyAll(m, dss)) == ApplyAll(Masked(m), MaskedSteps(dss))
  {
    if dss != [] {
      var front, last := dss[..|dss| - 1], dss[|dss| - 1];
      MaskApplyAll(m, front);
      MaskingHomomorphism(ApplyAll(m, front), last, m, m);
      assert MaskedSteps(dss)[..|dss| - 1] == MaskedSteps(front);
    }
  }

  /** A watcher that only ever sees masked events and started from the masked snapshot holds, after
      every published version, exactly the masked contents of that version. */
  lemma MaskedWatcherTracks(base: SnapshotMap, chain: seq<SnapshotMap>)
    requires chain != []
    ensures SameItems(ApplyAll(Masked(base), MaskedSteps(Steps(base, chain))), Masked(chain[|chain| - 1]))
  {
    MaskApplyAll(base, Steps(base, chain));
    var end, last := ApplyAll(base, Steps(base, chain)), chain[|chain| - 1];
    forall g, k
      ensures Get(Masked(end), g, k) == Get(Masked(last), g, k)
    {
      StepsEffect(base, base, chain, g, k);
      assert last in chain;
      MapGet(MaskedValue, end, g, k);
      MapGet(MaskedValue, last, g, k);
    }
  }

  // ---------------- apply_secret_policy ----------------

  /** What one value becomes: revealing decrypts where a cipher is configured and opens the secret
      (`decrypt` gives its plaintext), everything else is masked. */
  function PolicyValue(cipher: Option<Ciphertext -> Option<string>>, showPlain: bool, v: Value): Value {
    if !v.Secret? then v
    else if showPlain && cipher.Some? && cipher.value(v.sealed).Some? then Str(cipher.value(v.sealed).value)
    else Str("***")
  }

  function PolicyGroup(cipher: Option<Ciphertext -> Option<string>>, showPlain: bool, items: map<string, Value>)
    : map<string, Value>
  {
    MapGroup(v => PolicyValue(cipher, showPlain, v), items)
  }

  method GroupPolicy(items: map<string, Value>, cipher: Option<Ciphertext -> Option<string>>, showPlain: bool)
    returns (out: map<string, Value>)
    ensures out == PolicyGroup(cipher, showPlain, items)
  {
    out := items;
    var todo := items.Keys;
    while todo != {}
      invariant todo <= items.Keys && out.Keys == items.Keys
      invariant forall k | k in items ::
          out[k] == (if k in todo then items[k] else PolicyValue(cipher, showPlain, items[k]))
    {
      var k := Least(todo);
      if out[k].Secret? {
        var plain := if showPlain && cipher.Some? then cipher.value(out[k].sealed) else None;
        var shown := if plain.Some? then Str(plain.value) else Str("***");
        out := out[k := shown];
      }
      todo := todo - {k};
    }
  }

  /** `apply_secret_policy` rewrites every secret in place; without revealing it is masking. */
  method ApplySecretPolicy(groups: SnapshotMap, cipher: Option<Ciphertext -> Option<string>>, showPlain: bool)
    returns (out: SnapshotMap)
    ensures out == MapValues(v => PolicyValue(cipher, showPlain, v), groups)
    ensures !showPlain ==> out == Masked(groups)
    ensures out.Keys == groups.Keys && forall g | g in groups :: out[g].Keys == groups[g].Keys
    ensures forall g, k | g in groups && k in groups[g] ::
              out[g][k] ==
              match groups[g][k]
              case Secret(c) =>
                if showPlain && cipher.Some? && cipher.value(c).Some? then Str(cipher.value(c).value) else Str("***")
              case v => v
  {
    out := groups;
    var todo := groups.Keys;
    while todo != {}
      invariant todo <= groups.Keys && out.Keys == groups.Keys
      invariant forall g | g in groups ::
          out[g] == if g in todo then groups[g] else PolicyGroup(cipher, showPlain, groups[g])
    {
      var g := Least(todo);
      var items := GroupPolicy(out[g], cipher, showPlain);
      out := out[g := items];
      todo := todo - {g};
    }
    if !showPlain {
      forall g | g in groups
        ensures out[g] == MapGroup(MaskedValue, groups[g])
      {
      }
    }
  }
}
