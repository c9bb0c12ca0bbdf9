/** Comparing two branches, and promoting values from one branch into another's draft. */
module Branches {
  import opened Model
  import opened Order
  import opened Diff
  import opened Wire
  import opened Text

  /** How an item is named in answers and requests: `group/key`. */
  function Path(it: Item): string {
    it.0 + "/" + it.1
  }

  /** Two nested loops over a snapshot. */
  method ItemsInOrder(m: SnapshotMap) returns (items: seq<Item>)
    ensures items == Items(m)
  {
    var gs := KeysInOrder(m.Keys);
    items := [];
    for i := 0 to |gs|
      invariant forall g | g in gs[..i] :: g in m
      invariant items == ItemsOver(m, gs[..i])
    {
      ItemsOverStep(m, gs, i);
      var ks := KeysInOrder(m[gs[i]].Keys);
      ghost var before := items;
      for j := 0 to |ks|
        invariant items == before + InGroup(gs[i], ks[..j])
      {
        InGroupStep(gs[i], ks, j);
        items := items + [(gs[i], ks[j])];
      }
      assert ks[..|ks|] == ks;
    }
    assert gs[..|gs|] == gs;
  }

  // ---------------- branch_diff ----------------

  /** An item present on both sides with different values, as it is shown. */
  datatype Side = Side(group: string, key: string, a: Value, b: Value)

  function GroupAt(m: SnapshotMap, g: string): map<string, Value> {
    if g in m then m[g] else map[]
  }

  function Merged(a: map<string, Value>, b: map<string, Value>): (r: map<string, Value>) {
    a + b
  }

  /** The items of either branch, as one ordered set. */
  function Union(a: SnapshotMap, b: SnapshotMap): (u: SnapshotMap) {
    map g | g in a.Keys + b.Keys :: Merged(GroupAt(a, g), GroupAt(b, g))
  }

  lemma UnionGet(a: SnapshotMap, b: SnapshotMap, g: string, k: string)
    ensures Get(Union(a, b), g, k).Some? <==> Get(a, g, k).Some? || Get(b, g, k).Some?
  {
  }

  lemma {:induction false} ItemsByKeys(m: SnapshotMap, n: SnapshotMap, gs: seq<string>)
    requires forall g | g in gs :: g in m && g in n && m[g].Keys == n[g].Keys
    ensures ItemsOver(m, gs) == ItemsOver(n, gs)
  {
    if gs != [] {
      ItemsByKeys(m, n, gs[..|gs| - 1]);
    }
  }

  lemma UnionSymmetric(a: SnapshotMap, b: SnapshotMap)
    ensures Items(Union(a, b)) == Items(Union(b, a))
  {
    var u, v := Union(a, b), Union(b, a);
    assert u.Keys == v.Keys;
    forall g | g in u
      ensures u[g].Keys == v[g].Keys
    {
    }
    ItemsByKeys(u, v, Sorted(u.Keys));
  }

  function SideAt(a: SnapshotMap, b: SnapshotMap, it: Item): (r: seq<Side>) {
    var x, y := Get(a, it.0, it.1), Get(b, it.0, it.1);
    if x.Some? && y.Some? && x != y then [Side(it.0, it.1, MaskedValue(x.value), MaskedValue(y.value))] else []
  }

  function MissingAt(a: SnapshotMap, b: SnapshotMap, it: Item): (r: seq<Item>) {
    if Get(a, it.0, it.1).Some? != Get(b, it.0, it.1).Some? then [it] else []
  }

  function Sides(a: SnapshotMap, b: SnapshotMap, items: seq<Item>): (r: seq<Side>) {
    if items == [] then [] else Sides(a, b, items[..|items| - 1]) + SideAt(a, b, items[|items| - 1])
  }

  function Missing(a: SnapshotMap, b: SnapshotMap, items: seq<Item>): (r: seq<Item>) {
    if items == [] then [] else Missing(a, b, items[..|items| - 1]) + MissingAt(a, b, items[|items| - 1])
  }

  function Paths(items: seq<Item>): (r: seq<string>)
    ensures |r| == |items| && forall i | 0 <= i < |items| :: r[i] == Path(items[i])
  {
    seq(|items|, i requires 0 <= i < |items| => Path(items[i]))
  }

  lemma NothingCompared(a: SnapshotMap, b: SnapshotMap)
    ensures Sides(a, b, []) == [] && Paths(Missing(a, b, [])) == []
  {
  }

  lemma CompareNext(a: SnapshotMap, b: SnapshotMap, items: seq<Item>, i: nat)
    requires i < |items|
    ensures Sides(a, b, items[..i + 1]) == Sides(a, b, items[..i]) + SideAt(a, b, items[i])
    ensures Missing(a, b, items[..i + 1]) == Missing(a, b, items[..i]) + MissingAt(a, b, items[i])
  {
    assert items[..i + 1][..i] == items[..i];
  }

  lemma PathsSnoc(items: seq<Item>, it: Item)
    ensures Paths(items + [it]) == Paths(items) + [Path(it)]
    ensures Paths(items + []) == Paths(items)
  {
    assert items + [] == items;
  }

  method BranchDiff(a: SnapshotMap, b: SnapshotMap) returns (diffs: seq<Side>, missing: seq<string>)
    ensures diffs == Sides(a, b, Items(Union(a, b)))
    ensures missing == Paths(Missing(a, b, Items(Union(a, b))))
  {
    hide Sides, Missing, Paths, Path, Get, Union, Items, MaskedValue;
    var items := ItemsInOrder(Union(a, b));
    diffs, missing := [], [];
    NothingCompared(a, b);
    assert items[..0] == [];
    for i := 0 to |items|
      invariant diffs == Sides(a, b, items[..i])
      invariant missing == Paths(Missing(a, b, items[..i]))
    {
      var it := items[i];
      CompareNext(a, b, items, i);
      PathsSnoc(Missing(a, b, items[..i]), it);
      ghost var sides, missed := SideAt(a, b, it), MissingAt(a, b, it);
      assert diffs + [] == diffs;
      var x, y := Get(a, it.0, it.1), Get(b, it.0, it.1);
      if x.Some? && y.Some? && x != y {
        assert missed == [];
        diffs := diffs + [Side(it.0, it.1, MaskedValue(x.value), MaskedValue(y.value))];
      } else if x.Some? != y.Some? {
        assert sides == [] && missed == [it];
        missing := missing + [Path(it)];
      } else {
        assert sides == [] && missed == [];
      }
    }
    assert items[..|items|] == items;
  }

  lemma {:induction false} SidesMembers(a: SnapshotMap, b: SnapshotMap, items: seq<Item>, s: Side)
    ensures s in Sides(a, b, items) <==>
            && (s.group, s.key) in items
            && Get(a, s.group, s.key).Some? && Get(b, s.group, s.key).Some?
            && Get(a, s.group, s.key) != Get(b, s.group, s.key)
            && s.a == MaskedValue(Get(a, s.group, s.key).value) && s.b == MaskedValue(Get(b, s.group, s.key).value)
  {
    if items != [] {
      var n := |items| - 1;
      SidesMembers(a, b, items[..n], s);
      assert items == items[..n] + [items[n]];
    }
  }

  lemma {:induction false} MissingMembers(a: SnapshotMap, b: SnapshotMap, items: seq<Item>, it: Item)
    ensures it in Missing(a, b, items) <==> it in items && Get(a, it.0, it.1).Some? != Get(b, it.0, it.1).Some?
  {
    if items != [] {
      var n := |items| - 1;
      MissingMembers(a, b, items[..n], it);
      assert items == items[..n] + [items[n]];
    }
  }

  function Swapped(s: Side): Side {
    Side(s.group, s.key, s.b, s.a)
  }

  function AllSwapped(ss: seq<Side>): (r: seq<Side>)
    ensures |r| == |ss| && forall i | 0 <= i < |ss| :: r[i] == Swapped(ss[i])
  {
    seq(|ss|, i requires 0 <= i < |ss| => Swapped(ss[i]))
  }

  lemma {:induction false} SidesSwap(a: SnapshotMap, b: SnapshotMap, items: seq<Item>)
    ensures Sides(b, a, items) == AllSwapped(Sides(a, b, items))
    ensures Missing(b, a, items) == Missing(a, b, items)
  {
    if items != [] {
      SidesSwap(a, b, items[..|items| - 1]);
    }
  }

  /** Comparing the other way round shows the same items in the same order, sides swapped, and misses
      the same items. */
  lemma ComparisonSymmetric(a: SnapshotMap, b: SnapshotMap)
    ensures Sides(b, a, Items(Union(b, a))) == AllSwapped(Sides(a, b, Items(Union(a, b))))
    ensures Missing(b, a, Items(Union(b, a))) == Missing(a, b, Items(Union(a, b)))
  {
    hide Union, Items;
    UnionSymmetric(a, b);
    SidesSwap(a, b, Items(Union(a, b)));
  }

  /** The comparison names exactly the items `compute_diff` names: changed on both sides as a
      difference, on one side only as missing, never both. */
  lemma ComparisonMatchesDiff(a: SnapshotMap, b: SnapshotMap, g: string, k: string)
    ensures var items := Items(Union(a, b));
            var shown := exists s :: s in Sides(a, b, items) && (s.group, s.key) == (g, k);
            var missed := (g, k) in Missing(a, b, items);
            && (shown || missed <==> exists e :: e in Changes(a, b) && At(e) == (g, k))
            && !(shown && missed)
            && (shown <==> Get(a, g, k).Some? && Get(b, g, k).Some? && Get(a, g, k) != Get(b, g, k))
  {
    hide Changes, Items, Union, Sides, Missing;
    var items := Items(Union(a, b));
    ChangesName(a, b, g, k);
    MissingMembers(a, b, items, (g, k));
    ItemsMembers(Union(a, b), g, k);
    UnionGet(a, b, g, k);
    var x, y := Get(a, g, k), Get(b, g, k);
    forall s | s in Sides(a, b, items) && (s.group, s.key) == (g, k)
      ensures x.Some? && y.Some? && x != y
    {
      SidesMembers(a, b, items, s);
    }
    if x.Some? && y.Some? && x != y {
      SidesMembers(a, b, items, Side(g, k, MaskedValue(x.value), MaskedValue(y.value)));
    }
  }

  /** A shown difference carries no ciphertext. */
  lemma ComparisonMasked(a: SnapshotMap, b: SnapshotMap, s: Side)
    requires s in Sides(a, b, Items(Union(a, b)))
    ensures !s.a.Secret? && !s.b.Secret?
  {
    SidesMembers(a, b, Items(Union(a, b)), s);
  }

  // ---------------- promote ----------------

  /** The first slash of a requested item separates group and key. */
  function SplitPath(s: string): (r: Option<Item>) {
    if s == "" then None
    else if s[0] == '/' then Some(("", s[1..]))
    else
      match SplitPath(s[1..])
      case None => None
      case Some(it) => Some(([s[0]] + it.0, it.1))
  }

  lemma {:induction false} PathRoundTrip(it: Item)
    requires Lacks(it.0, '/')
    ensures SplitPath(Path(it)) == Some(it)
    decreases |it.0|
  {
    if it.0 == "" {
      assert Path(it)[1..] == it.1;
    } else {
      assert Lacks(it.0[1..], '/') && it.0[0] in it.0;
      PathRoundTrip((it.0[1..], it.1));
      assert Path(it)[1..] == Path((it.0[1..], it.1));
      assert it.0 == [it.0[0]] + it.0[1..];
    }
  }

  lemma {:induction false} SplitPathExact(s: string)
    ensures SplitPath(s).None? <==> Lacks(s, '/')
    ensures SplitPath(s).Some? ==> Lacks(SplitPath(s).value.0, '/') && Path(SplitPath(s).value) == s
  {
    if s != "" {
      SplitPathExact(s[1..]);
      assert s == [s[0]] + s[1..];
    }
  }

  /** The requested items; one without a slash names nothing. */
  function Requested(items: seq<string>): (r: seq<Item>) {
    if items == [] then []
    else
      var it := SplitPath(items[|items| - 1]);
      Requested(items[..|items| - 1]) + if it.Some? then [it.value] else []
  }

  datatype Fate = Ignored | Skipped | Applied

  /** What happens to an item of the source: left out by the request, read-only or already edited in the
      target's draft, or taken over. */
  function FateOf(filter: Option<seq<Item>>, refs: set<Item>, draft: SnapshotMap, force: bool, it: Item): (f: Fate) {
    if filter.Some? && it !in filter.value then Ignored
    else if it in refs then Skipped
    else if Get(draft, it.0, it.1).Some? && !force then Skipped
    else Applied
  }

  datatype Promotion = Promotion(src: SnapshotMap, filter: Option<seq<Item>>, refs: set<Item>, draft: SnapshotMap, force: bool)

  function Fated(p: Promotion, it: Item): Fate {
    FateOf(p.filter, p.refs, p.draft, p.force, it)
  }

  function With(p: Promotion, items: seq<Item>, f: Fate): (r: seq<Item>) {
    if items == [] then []
    else
      var it := items[|items| - 1];
      With(p, items[..|items| - 1], f) + if Fated(p, it) == f then [it] else []
  }

  /** The draft update an applied item asks for. */
  function UpdateOf(p: Promotion, it: Item): DiffEntry {
    DiffEntry(it.0, it.1, Upsert, Get(p.src, it.0, it.1))
  }

  function Updates(p: Promotion, items: seq<Item>): (r: seq<DiffEntry>)
    ensures |r| == |items| && forall i | 0 <= i < |items| :: r[i] == UpdateOf(p, items[i])
  {
    seq(|items|, i requires 0 <= i < |items| => UpdateOf(p, items[i]))
  }

  function Absent(src: SnapshotMap, items: seq<Item>): (r: seq<Item>) {
    if items == [] then []
    else
      var it := items[|items| - 1];
      Absent(src, items[..|items| - 1]) + if Get(src, it.0, it.1).None? then [it] else []
  }

  method ParseRequest(items: seq<string>) returns (r: seq<Item>)
    ensures r == Requested(items)
  {
    r := [];
    for i := 0 to |items|
      invariant r == Requested(items[..i])
    {
      assert items[..i + 1][..i] == items[..i];
      var it := SplitPath(items[i]);
      if it.Some? {
        r := r + [it.value];
      }
    }
    assert items[..|items|] == items;
  }

  lemma WithNext(p: Promotion, items: seq<Item>, i: nat, f: Fate)
    requires i < |items|
    ensures With(p, items[..i + 1], f) == With(p, items[..i], f) + if Fated(p, items[i]) == f then [items[i]] else []
  {
    assert items[..i + 1][..i] == items[..i];
  }

  lemma UpdatesSnoc(p: Promotion, items: seq<Item>, it: Item)
    ensures Updates(p, items + [it]) == Updates(p, items) + [UpdateOf(p, it)]
    ensures Updates(p, items + []) == Updates(p, items)
  {
    assert items + [] == items;
  }

  lemma NothingPromoted(p: Promotion)
    ensures Updates(p, With(p, [], Applied)) == [] && Paths(With(p, [], Applied)) == [] && Paths(With(p, [], Skipped)) == []
  {
  }

  /** The requested items the source lacks. */
  method MissingFrom(src: SnapshotMap, f: seq<Item>) returns (r: seq<string>)
    ensures r == Paths(Absent(src, f))
  {
    r := [];
    for i := 0 to |f|
      invariant r == Paths(Absent(src, f[..i]))
    {
      assert f[..i + 1][..i] == f[..i];
      PathsSnoc(Absent(src, f[..i]), f[i]);
      if !(f[i].0 in src && f[i].1 in src[f[i].0]) {
        r := r + [Path(f[i])];
      }
    }
    assert f[..|f|] == f;
  }

  method Promote(src: SnapshotMap, request: Option<seq<string>>, refs: set<Item>, draft: SnapshotMap, force: bool)
    returns (updates: seq<DiffEntry>, applied: seq<string>, skipped: seq<string>, missingFrom: seq<string>)
    ensures var filter := if request.Some? then Some(Requested(request.value)) else None;
            var p := Promotion(src, filter, refs, draft, force);
            && updates == Updates(p, With(p, Items(src), Applied))
            && applied == Paths(With(p, Items(src), Applied))
            && skipped == Paths(With(p, Items(src), Skipped))
            && missingFrom == if filter.Some? then Paths(Absent(src, filter.value)) else []
  {
    hide With, Updates, Paths, Path, Absent, Items, Requested;
    var filter: Option<seq<Item>> := None;
    if request.Some? {
      var requested := ParseRequest(request.value);
      filter := Some(requested);
    }
    ghost var p := Promotion(src, filter, refs, draft, force);
    updates, applied, skipped, missingFrom := [], [], [], [];
    var items := ItemsInOrder(src);
    NothingPromoted(p);
    assert items[..0] == [];
    for i := 0 to |items|
      invariant updates == Updates(p, With(p, items[..i], Applied))
      invariant applied == Paths(With(p, items[..i], Applied))
      invariant skipped == Paths(With(p, items[..i], Skipped))
    {
      var it := items[i];
      WithNext(p, items, i, Applied);
      WithNext(p, items, i, Skipped);
      UpdatesSnoc(p, With(p, items[..i], Applied), it);
      PathsSnoc(With(p, items[..i], Applied), it);
      PathsSnoc(With(p, items[..i], Skipped), it);
      assert it in items;
      ItemsMembers(src, it.0, it.1);
      if filter.Some? && it !in filter.value {
        continue;
      }
      if it in refs {
        skipped := skipped + [Path(it)];
        continue;
      }
      var drafted := it.0 in draft && it.1 in draft[it.0];
      if drafted && !force {
        skipped := skipped + [Path(it)];
        continue;
      }
      updates := updates + [DiffEntry(it.0, it.1, Upsert, Some(src[it.0][it.1]))];
      applied := applied + [Path(it)];
    }
    assert items[..|items|] == items;
    if filter.Some? {
      missingFrom := MissingFrom(src, filter.value);
    }
  }

  lemma {:induction false} WithMembers(p: Promotion, items: seq<Item>, f: Fate, it: Item)
    ensures it in With(p, items, f) <==> it in items && Fated(p, it) == f
  {
    if items != [] {
      var n := |items| - 1;
      WithMembers(p, items[..n], f, it);
      assert items == items[..n] + [items[n]];
    }
  }

  lemma {:induction false} AbsentMembers(src: SnapshotMap, items: seq<Item>, it: Item)
    ensures it in Absent(src, items) <==> it in items && Get(src, it.0, it.1).None?
  {
    if items != [] {
      var n := |items| - 1;
      AbsentMembers(src, items[..n], it);
      assert items == items[..n] + [items[n]];
    }
  }

  lemma {:induction false} RequestedMembers(items: seq<string>, it: Item)
    ensures it in Requested(items) <==> Lacks(it.0, '/') && Path(it) in items
  {
    if items != [] {
      var n := |items| - 1;
      var s := items[n];
      RequestedMembers(items[..n], it);
      assert items == items[..n] + [s];
      SplitPathExact(s);
      if Lacks(it.0, '/') {
        PathRoundTrip(it);
      }
    }
  }

  ghost predicate Selected(p: Promotion, it: Item) {
    Get(p.src, it.0, it.1).Some? && (p.filter.Some? ==> it in p.filter.value)
  }

  /** Applied and skipped items cover the selected items of the source and have none in common; a skipped
      one is a reference, or edited in the draft and not forced; missing are the requested items the
      source does not have. */
  lemma PromotionPartitions(p: Promotion, it: Item)
    ensures var applied, skipped := With(p, Items(p.src), Applied), With(p, Items(p.src), Skipped);
            && (it in applied || it in skipped <==> Selected(p, it))
            && !(it in applied && it in skipped)
            && (it in skipped <==> Selected(p, it) && (it in p.refs || (Get(p.draft, it.0, it.1).Some? && !p.force)))
    ensures p.filter.Some? ==>
              (it in Absent(p.src, p.filter.value) <==> it in p.filter.value && Get(p.src, it.0, it.1).None?)
  {
    hide Items, With, Absent;
    WithMembers(p, Items(p.src), Applied, it);
    WithMembers(p, Items(p.src), Skipped, it);
    ItemsMembers(p.src, it.0, it.1);
    if p.filter.Some? {
      AbsentMembers(p.src, p.filter.value, it);
    }
  }

  lemma {:induction false} WithDistinct(p: Promotion, items: seq<Item>, f: Fate)
    requires Distinct(items)
    ensures Distinct(With(p, items, f))
  {
    if items != [] {
      var n := |items| - 1;
      WithDistinct(p, items[..n], f);
      WithMembers(p, items[..n], f, items[n]);
    }
  }

  /** What the updates do to the target's draft: an applied item takes the source's value, any other item
      stays; each item is updated once. Without force nothing edited there is lost. */
  lemma PromotionOnDraft(p: Promotion, g: string, k: string)
    ensures var updates := Updates(p, With(p, Items(p.src), Applied));
            && NamesOnce(updates)
            && Get(Apply(p.draft, updates), g, k)
               == (if (g, k) in With(p, Items(p.src), Applied) then Get(p.src, g, k) else Get(p.draft, g, k))
            && (!p.force && Get(p.draft, g, k).Some? ==> Get(Apply(p.draft, updates), g, k) == Get(p.draft, g, k))
  {
    hide Items, With, Apply;
    var applied := With(p, Items(p.src), Applied);
    var updates := Updates(p, applied);
    forall it | it in applied
      ensures Get(p.src, it.0, it.1).Some?
    {
      WithMembers(p, Items(p.src), Applied, it);
      ItemsMembers(p.src, it.0, it.1);
    }
    WithMembers(p, Items(p.src), Applied, (g, k));
    ItemsAreDistinct(p.src);
    WithDistinct(p, Items(p.src), Applied);
    forall d | d in updates
      ensures WellFormed(d) && At(d) in applied && d == UpdateOf(p, At(d))
    {
      var i :| 0 <= i < |updates| && updates[i] == d;
      assert At(d) == applied[i];
    }
    if (g, k) in applied {
      var i :| 0 <= i < |applied| && applied[i] == (g, k);
      assert At(updates[i]) == (g, k) && updates[i] in updates;
    }
    ApplyEffect(p.draft, updates, g, k, Get(p.src, g, k));
    forall i, j | 0 <= i < j < |updates|
      ensures At(updates[i]) != At(updates[j])
    {
      assert applied[i] != applied[j];
    }
  }

  lemma ItemsAreDistinct(m: SnapshotMap)
    ensures Distinct(Items(m))
  {
    ItemsOverDistinct(m, Sorted(m.Keys));
  }

  /** For a request, an answer of `missing` is exactly a requested name with a slash that the source does
      not have; a requested name without a slash is reported nowhere. */
  lemma RequestAnswered(src: SnapshotMap, request: seq<string>, s: string)
    ensures s in Paths(Absent(src, Requested(request))) <==>
            s in request && SplitPath(s).Some?
            && Get(src, SplitPath(s).value.0, SplitPath(s).value.1).None?
  {
    hide Absent, Requested, SplitPath, Path;
    var wanted := Requested(request);
    var absent := Absent(src, wanted);
    SplitPathExact(s);
    if s in Paths(absent) {
      var i :| 0 <= i < |absent| && Path(absent[i]) == s;
      assert absent[i] in absent;
      AbsentMembers(src, wanted, absent[i]);
      RequestedMembers(request, absent[i]);
      PathRoundTrip(absent[i]);
    }
    if s in request && SplitPath(s).Some? && Get(src, SplitPath(s).value.0, SplitPath(s).value.1).None? {
      var it := SplitPath(s).value;
      RequestedMembers(request, it);
      AbsentMembers(src, wanted, it);
      var i :| 0 <= i < |absent| && absent[i] == it;
      assert Paths(absent)[i] == s;
    }
  }
}
