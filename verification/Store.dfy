/** The ordered key-value store: prefix scans, paged dumps, batch writes, and restoring from a dump. */
module Store {
  import opened Model
  import opened Order

  type Db = map<string, string>

  datatype Pair = Pair(key: string, value: string)

  // ---------------- scans ----------------

  function KeysWith(db: Db, prefix: string): set<string> {
    set k | k in db && prefix <= k
  }

  function PairsOf(db: Db, ks: seq<string>): (ps: seq<Pair>)
    requires forall k | k in ks :: k in db
    ensures |ps| == |ks| && forall i | 0 <= i < |ks| :: ps[i] == Pair(ks[i], db[ks[i]])
  {
    seq(|ks|, i requires 0 <= i < |ks| => Pair(ks[i], db[ks[i]]))
  }

  /** The entries whose key starts with the prefix, ascending. */
  ghost function Scan(db: Db, prefix: string): (ps: seq<Pair>) {
    var ks := Sorted(KeysWith(db, prefix));
    PairsOf(db, ks)
  }

  ghost predicate AscendingPairs(ps: seq<Pair>) {
    forall i, j {:trigger Below(ps[i].key, ps[j].key)} | 0 <= i < j < |ps| :: Below(ps[i].key, ps[j].key)
  }

  lemma ScanAscending(db: Db, prefix: string)
    ensures AscendingPairs(Scan(db, prefix))
    ensures forall p :: p in Scan(db, prefix) <==> prefix <= p.key && p.key in db && db[p.key] == p.value
  {
    var ks := Sorted(KeysWith(db, prefix));
    var ps := Scan(db, prefix);
    forall i, j | 0 <= i < j < |ps|
      ensures Below(ps[i].key, ps[j].key)
    {
      assert Below(ks[i], ks[j]);
    }
    forall p
      ensures p in ps <==> prefix <= p.key && p.key in db && db[p.key] == p.value
    {
      if prefix <= p.key && p.key in db && db[p.key] == p.value {
        assert p.key in ks;
        var i :| 0 <= i < |ks| && ks[i] == p.key;
        assert ps[i] == p;
      }
      if p in ps {
        var i :| 0 <= i < |ps| && ps[i] == p;
        assert ks[i] in ks;
      }
    }
  }

  // ---------------- pages ----------------

  function Size(ps: seq<Pair>): nat {
    if ps == [] then 0 else Size(ps[..|ps| - 1]) + |ps[|ps| - 1].key| + |ps[|ps| - 1].value|
  }

  lemma SizeSnoc(ps: seq<Pair>, p: Pair)
    ensures Size(ps + [p]) == Size(ps) + |p.key| + |p.value|
  {
    assert (ps + [p])[..|ps|] == ps;
  }

  function Budget(bytes: nat): nat {
    if bytes == 0 then 1 else bytes
  }

  /** The rest of a scan after a key. */
  function Beyond(ps: seq<Pair>, after: Option<string>): (r: seq<Pair>) {
    if after.None? || ps == [] || !AtMost(ps[0].key, after.value) then ps else Beyond(ps[1..], after)
  }

  lemma {:induction false} BeyondSkips(ps: seq<Pair>, after: string, i: nat)
    requires i <= |ps| && forall j | 0 <= j < i :: AtMost(ps[j].key, after)
    ensures Beyond(ps, Some(after)) == Beyond(ps[i..], Some(after))
    decreases i
  {
    if i > 0 {
      assert AtMost(ps[0].key, after);
      forall j | 0 <= j < i - 1
        ensures AtMost(ps[1..][j].key, after)
      {
        assert AtMost(ps[j + 1].key, after);
      }
      BeyondSkips(ps[1..], after, i - 1);
      assert ps[1..][i - 1..] == ps[i..];
    } else {
      assert ps[0..] == ps;
    }
  }

  /** Going on from the key of an entry of a scan leaves exactly the entries after it. */
  lemma BeyondEntry(ps: seq<Pair>, i: nat)
    requires AscendingPairs(ps) && i < |ps|
    ensures Beyond(ps, Some(ps[i].key)) == ps[i + 1..]
  {
    forall j | 0 <= j < i + 1
      ensures AtMost(ps[j].key, ps[i].key)
    {
      if j < i {
        assert Below(ps[j].key, ps[i].key);
      }
    }
    BeyondSkips(ps, ps[i].key, i + 1);
    if i + 1 < |ps| {
      assert Below(ps[i].key, ps[i + 1].key);
      BelowAsymmetric(ps[i].key, ps[i + 1].key);
    }
  }

  /** A page of a scan: it starts where asked, has an entry if any is left, was under budget before
      its last entry, and ends only at the budget or at the end. */
  ghost predicate IsPage(page: seq<Pair>, rest: seq<Pair>, budget: nat) {
    && page <= rest && (page == [] <==> rest == [])
    && (page != [] ==> Size(page[..|page| - 1]) < Budget(budget))
    && (page == rest || Size(page) >= Budget(budget))
  }

  /** A page still under budget. */
  ghost predicate PageOpen(page: seq<Pair>, budget: nat) {
    Size(page) < Budget(budget) && (page != [] ==> Size(page[..|page| - 1]) < Budget(budget))
  }

  lemma EmptyPage(budget: nat)
    ensures Size([]) == 0 && PageOpen([], budget)
  {
  }

  lemma PageStep(page: seq<Pair>, p: Pair, more: seq<Pair>, budget: nat)
    requires PageOpen(page, budget)
    ensures Size(page + [p]) == Size(page) + |p.key| + |p.value|
    ensures page + ([p] + more) == page + [p] + more
    ensures if Size(page + [p]) >= Budget(budget) then IsPage(page + [p], page + [p] + more, budget)
            else PageOpen(page + [p], budget)
  {
    SizeSnoc(page, p);
    assert (page + [p])[..|page|] == page;
  }

  lemma PageEnds(page: seq<Pair>, budget: nat)
    requires PageOpen(page, budget)
    ensures IsPage(page, page, budget)
  {
  }

  lemma BeyondStep(ps: seq<Pair>, after: Option<string>)
    ensures ps == [] ==> Beyond(ps, after) == []
    ensures ps != [] && after.Some? ==>
              Beyond(ps, after) == if AtMost(ps[0].key, after.value) then Beyond(ps[1..], after) else ps
  {
  }

  /** That determines the page. */
  lemma PageUnique(p: seq<Pair>, q: seq<Pair>, rest: seq<Pair>, budget: nat)
    requires IsPage(p, rest, budget) && IsPage(q, rest, budget)
    ensures p == q
  {
    if |p| < |q| {
      PageNotShorter(p, q, rest, budget);
    } else if |q| < |p| {
      PageNotShorter(q, p, rest, budget);
    }
  }

  lemma PageNotShorter(p: seq<Pair>, q: seq<Pair>, rest: seq<Pair>, budget: nat)
    requires IsPage(p, rest, budget) && IsPage(q, rest, budget)
    ensures |p| >= |q|
  {
    if |p| < |q| {
      assert q[..|q| - 1][..|p|] == p;
      SizeGrows(q[..|q| - 1], |p|);
    }
  }

  lemma {:induction false} SizeGrows(ps: seq<Pair>, i: nat)
    requires i <= |ps|
    ensures Size(ps[..i]) <= Size(ps)
    decreases |ps|
  {
    if i < |ps| {
      SizeGrows(ps[..|ps| - 1], i);
      assert ps[..|ps| - 1][..i] == ps[..i];
    } else {
      assert ps[..i] == ps;
    }
  }

  function Flatten(pages: seq<seq<Pair>>): (ps: seq<Pair>) {
    if pages == [] then [] else Flatten(pages[..|pages| - 1]) + pages[|pages| - 1]
  }

  lemma FlattenSnoc(pages: seq<seq<Pair>>, page: seq<Pair>)
    ensures Flatten(pages + [page]) == Flatten(pages) + page
  {
    assert (pages + [page])[..|pages|] == pages;
  }

  // ---------------- batches ----------------

  function PutAll(db: Db, puts: seq<Pair>): (r: Db) {
    if puts == [] then db
    else PutAll(db, puts[..|puts| - 1])[puts[|puts| - 1].key := puts[|puts| - 1].value]
  }

  function Removed(db: Db, ks: seq<string>): (r: Db) {
    map k | k in db && k !in ks :: db[k]
  }

  /** Deletes first, then puts. */
  function Batched(db: Db, puts: seq<Pair>, deletes: seq<string>): (r: Db) {
    PutAll(Removed(db, deletes), puts)
  }

  lemma PutAllSnoc(db: Db, puts: seq<Pair>, p: Pair)
    ensures PutAll(db, puts + [p]) == PutAll(db, puts)[p.key := p.value]
  {
    assert (puts + [p])[..|puts|] == puts;
  }

  lemma {:induction false} PutAllConcat(db: Db, a: seq<Pair>, b: seq<Pair>)
    ensures PutAll(db, a + b) == PutAll(PutAll(db, a), b)
  {
    if b == [] {
      assert a + b == a;
    } else {
      PutAllConcat(db, a, b[..|b| - 1]);
      assert a + b == (a + b[..|b| - 1]) + [b[|b| - 1]];
      PutAllSnoc(db, a + b[..|b| - 1], b[|b| - 1]);
    }
  }

  /** Writing pairs with distinct keys into nothing gives exactly those pairs. */
  lemma {:induction false} PutAllDistinct(puts: seq<Pair>)
    requires AscendingPairs(puts)
    ensures forall k :: k in PutAll(map[], puts) <==> exists i :: 0 <= i < |puts| && puts[i].key == k
    ensures forall i | 0 <= i < |puts| :: puts[i].key in PutAll(map[], puts) && PutAll(map[], puts)[puts[i].key] == puts[i].value
  {
    if puts != [] {
      var n := |puts| - 1;
      var front := puts[..n];
      forall i, j | 0 <= i < j < |front|
        ensures Below(front[i].key, front[j].key)
      {
        assert Below(puts[i].key, puts[j].key);
      }
      PutAllDistinct(front);
      forall i | 0 <= i < n
        ensures front[i] == puts[i] && puts[i].key != puts[n].key
      {
        assert Below(puts[i].key, puts[n].key);
        BelowAsymmetric(puts[i].key, puts[n].key);
      }
    }
  }

  lemma DumpRebuilds(db: Db)
    ensures PutAll(map[], Scan(db, "")) == db
  {
    var ps := Scan(db, "");
    ScanAscending(db, "");
    PutAllDistinct(ps);
    var r := PutAll(map[], ps);
    forall k
      ensures k in r <==> k in db
    {
      if k in db {
        assert Pair(k, db[k]) in ps;
      }
      if k in r {
        var i :| 0 <= i < |ps| && ps[i].key == k;
        assert ps[i] in ps;
      }
    }
    forall k | k in r
      ensures r[k] == db[k]
    {
      assert Pair(k, db[k]) in ps;
    }
  }

  class InMemoryStore {
    var inner: Db

    constructor ()
      ensures inner == map[]
    {
      inner := map[];
    }

    method Put(key: string, value: string)
      modifies this
      ensures inner == old(inner)[key := value]
    {
      inner := inner[key := value];
    }

    method Remove(key: string)
      modifies this
      ensures inner == old(inner) - {key}
    {
      inner := inner - {key};
    }

    /** Start at the prefix in key order and take while the prefix matches. No matching key is missed,
        because the matching keys are contiguous from the prefix on. */
    method GetPrefix(prefix: string) returns (ps: seq<Pair>)
      ensures ps == Scan(inner, prefix)
    {
      hide Below, AtMost;
      var ks := KeysInOrder(inner.Keys);
      var i := 0;
      while i < |ks| && Below(ks[i], prefix)
        invariant 0 <= i <= |ks|
        invariant forall j | 0 <= j < i :: Below(ks[j], prefix)
      {
        i := i + 1;
      }
      var start := i;
      ps := [];
      while i < |ks| && prefix <= ks[i]
        invariant start <= i <= |ks|
        invariant forall j | start <= j < i :: prefix <= ks[j]
        invariant |ps| == i - start
        invariant forall j | 0 <= j < |ps| :: ks[start + j] in inner && ps[j] == Pair(ks[start + j], inner[ks[start + j]])
      {
        assert ks[i] in inner;
        ps := ps + [Pair(ks[i], inner[ks[i]])];
        i := i + 1;
      }
      RangeIsScan(inner, prefix, ks, start, i);
      assert forall k | k in ks[start..i] :: k in inner;
      assert ps == PairsOf(inner, ks[start..i]);
    }

    /** One page of a scan. */
    method GetPrefixPage(prefix: string, after: Option<string>, budget: nat) returns (page: seq<Pair>)
      ensures IsPage(page, Beyond(Scan(inner, prefix), after), budget)
    {
      hide Below, AtMost, Scan, Size, Beyond, IsPage;
      page := [];
      var bytes := 0;
      var started := after.None?;
      var all := GetPrefix(prefix);
      ghost var rest := Beyond(all, after);
      assert all[0..] == all;
      BeyondNone(all);
      EmptyPage(budget);
      var i := 0;
      while i < |all|
        invariant 0 <= i <= |all|
        invariant !started ==> after.Some? && page == [] && Beyond(all[i..], after) == rest
        invariant started ==> page + all[i..] == rest
        invariant bytes == Size(page) && PageOpen(page, budget)
      {
        var p := all[i];
        BeyondStep(all[i..], after);
        i := i + 1;
        assert all[i - 1..] == [p] + all[i..] && all[i - 1..][1..] == all[i..];
        if !started {
          if AtMost(p.key, after.value) {
            continue;
          }
          started := true;
        }
        PageStep(page, p, all[i..], budget);
        bytes := bytes + |p.key| + |p.value|;
        page := page + [p];
        if bytes >= Budget(budget) {
          return;
        }
      }
      assert all[i..] == [];
      BeyondStep([], after);
      assert page + [] == page;
      assert rest == page;
      PageEnds(page, budget);
    }

    /** Page after page, each from the last key of the one before, until a page is empty: nothing is
        repeated, nothing is left out, and it ends. */
    method DumpBatches(budget: nat) returns (pages: seq<seq<Pair>>)
      ensures Flatten(pages) == Scan(inner, "")
      ensures forall i | 0 <= i < |pages| :: pages[i] != [] && Size(pages[i][..|pages[i]| - 1]) < Budget(budget)
      ensures forall i | 0 <= i < |pages| - 1 :: Size(pages[i]) >= Budget(budget)
    {
      hide Below, AtMost, Scan, Size, Beyond;
      ghost var all := Scan(inner, "");
      ScanAscending(inner, "");
      pages := [];
      var after: Option<string> := None;
      ghost var n := 0;
      var done := false;
      assert Beyond(all, None) == all[0..] by { BeyondNone(all); }
      while !done
        invariant n <= |all| && Flatten(pages) == all[..n]
        invariant Beyond(all, after) == all[n..]
        invariant done ==> n == |all|
        invariant n < |all| ==> forall i | 0 <= i < |pages| :: Size(pages[i]) >= Budget(budget)
        invariant forall i | 0 <= i < |pages| - 1 :: Size(pages[i]) >= Budget(budget)
        invariant forall i | 0 <= i < |pages| :: pages[i] != [] && Size(pages[i][..|pages[i]| - 1]) < Budget(budget)
        decreases |all| - n, !done
      {
        var page := GetPrefixPage("", after, budget);
        if page == [] {
          done := true;
        } else {
          var last := page[|page| - 1];
          NextPage(all, n, page);
          FlattenSnoc(pages, page);
          after := Some(last.key);
          n := n + |page|;
          pages := pages + [page];
        }
      }
      assert all[..n] == all;
    }

    method WriteBatch(puts: seq<Pair>, deletes: seq<string>)
      modifies this
      ensures inner == Batched(old(inner), puts, deletes)
    {
      ghost var before := inner;
      var i := 0;
      assert Removed(before, []) == before;
      while i < |deletes|
        invariant 0 <= i <= |deletes|
        invariant inner == Removed(before, deletes[..i])
      {
        assert deletes[..i + 1] == deletes[..i] + [deletes[i]];
        inner := inner - {deletes[i]};
        i := i + 1;
      }
      assert deletes[..i] == deletes;
      ghost var cleared := inner;
      i := 0;
      while i < |puts|
        invariant 0 <= i <= |puts|
        invariant inner == PutAll(cleared, puts[..i])
      {
        assert puts[..i + 1] == puts[..i] + [puts[i]];
        PutAllSnoc(cleared, puts[..i], puts[i]);
        inner := inner[puts[i].key := puts[i].value];
        i := i + 1;
      }
      assert puts[..i] == puts;
    }

    /** Clear before the first batch, then only insert. An error batch ends the run with the batches
        before it in place, and with nothing changed at all if it is the first. */
    method RestoreStream(batches: seq<Result<seq<Pair>>>) returns (r: Result<nat>)
      modifies this
      ensures r.Ok? <==> forall i | 0 <= i < |batches| :: batches[i].Ok?
      ensures inner ==
              if r.Err? && batches[0].Err? then old(inner) else PutAll(map[], Flatten(Goods(batches)))
    {
      hide PutAll;
      var isFirst := true;
      var i := 0;
      ghost var before := inner;
      while i < |batches|
        invariant 0 <= i <= |batches|
        invariant forall j | 0 <= j < i :: batches[j].Ok?
        invariant isFirst <==> i == 0
        invariant inner == if isFirst then before else PutAll(map[], Flatten(Goods(batches[..i])))
      {
        if batches[i].Err? {
          GoodsStop(batches, i);
          return Err(batches[i].message);
        }
        var batch := batches[i].value;
        GoodsNext(batches, i);
        FlattenSnoc(Goods(batches[..i]), batch);
        if isFirst {
          assert batches[..i] == [] && Flatten(Goods(batches[..i])) == [];
          var existing := KeysInOrder(inner.Keys);
          ClearAll(inner, existing, batch);
          WriteBatch(batch, existing);
          isFirst := false;
        } else if batch != [] {
          PutAllConcat(map[], Flatten(Goods(batches[..i])), batch);
          NoDeletes(inner, batch);
          WriteBatch(batch, []);
        } else {
          assert Flatten(Goods(batches[..i])) + batch == Flatten(Goods(batches[..i]));
        }
        i := i + 1;
      }
      assert batches[..i] == batches;
      if isFirst {
        var existing := KeysInOrder(inner.Keys);
        ClearAll(inner, existing, []);
        if existing != [] {
          WriteBatch([], existing);
        }
      }
      r := Ok(|batches|);
    }

    /** Cut into chunks and restore them: the store is then exactly the pairs, whatever was in it. */
    method RestoreAll(pairs: seq<Pair>, chunkBytes: nat)
      modifies this
      ensures inner == PutAll(map[], pairs)
    {
      var chunks := ChunkPairs(pairs, chunkBytes);
      var batches := seq(|chunks|, i requires 0 <= i < |chunks| => Ok(chunks[i]));
      GoodsAll(chunks, batches);
      var r := RestoreStream(batches);
    }
  }

  /** Chunks that concatenate to the pairs, none empty. */
  method ChunkPairs(pairs: seq<Pair>, chunkBytes: nat) returns (chunks: seq<seq<Pair>>)
    ensures Flatten(chunks) == pairs
    ensures forall i | 0 <= i < |chunks| :: chunks[i] != [] && Size(chunks[i][..|chunks[i]| - 1]) < Budget(chunkBytes)
  {
    hide Size;
    chunks := [];
    var start := 0;
    while start < |pairs|
      invariant 0 <= start <= |pairs| && Flatten(chunks) == pairs[..start]
      invariant forall i | 0 <= i < |chunks| :: chunks[i] != [] && Size(chunks[i][..|chunks[i]| - 1]) < Budget(chunkBytes)
    {
      var end := ChunkEnd(pairs, start, chunkBytes);
      var chunk := pairs[start..end];
      assert chunk[..|chunk| - 1] == pairs[start..end - 1];
      FlattenSnoc(chunks, chunk);
      assert pairs[..start] + chunk == pairs[..end];
      chunks := chunks + [chunk];
      start := end;
    }
    assert pairs[..start] == pairs;
  }

  method ChunkEnd(pairs: seq<Pair>, start: nat, chunkBytes: nat) returns (end: nat)
    requires start < |pairs|
    ensures start < end <= |pairs| && Size(pairs[start..end - 1]) < Budget(chunkBytes)
  {
    hide Size;
    end := start;
    var bytes := 0;
    EmptyPage(chunkBytes);
    assert pairs[start..end] == [];
    while end < |pairs| && (bytes < Budget(chunkBytes) || end == start)
      invariant start <= end <= |pairs|
      invariant bytes == Size(pairs[start..end])
      invariant end > start ==> Size(pairs[start..end - 1]) < Budget(chunkBytes)
      invariant end == start ==> bytes == 0
    {
      SizeSnoc(pairs[start..end], pairs[end]);
      assert pairs[start..end + 1] == pairs[start..end] + [pairs[end]];
      bytes := bytes + |pairs[end].key| + |pairs[end].value|;
      end := end + 1;
    }
  }

  /** The batches before the first error. */
  function Goods(batches: seq<Result<seq<Pair>>>): (r: seq<seq<Pair>>) {
    if batches == [] || batches[0].Err? then [] else [batches[0].value] + Goods(batches[1..])
  }

  lemma {:induction false} GoodsNext(batches: seq<Result<seq<Pair>>>, i: nat)
    requires i < |batches| && forall j | 0 <= j <= i :: batches[j].Ok?
    ensures Goods(batches[..i + 1]) == Goods(batches[..i]) + [batches[i].value]
    decreases |batches|
  {
    if i > 0 {
      GoodsNext(batches[1..], i - 1);
      assert batches[..i + 1][1..] == batches[1..][..i] && batches[..i][1..] == batches[1..][..i - 1];
    } else {
      assert batches[..1][1..] == [];
    }
  }

  lemma {:induction false} GoodsStop(batches: seq<Result<seq<Pair>>>, i: nat)
    requires i < |batches| && batches[i].Err? && forall j | 0 <= j < i :: batches[j].Ok?
    ensures Goods(batches) == Goods(batches[..i])
    decreases |batches|
  {
    if i > 0 {
      GoodsStop(batches[1..], i - 1);
      assert batches[..i][1..] == batches[1..][..i - 1];
    }
  }

  lemma {:induction false} GoodsAll(chunks: seq<seq<Pair>>, batches: seq<Result<seq<Pair>>>)
    requires |chunks| == |batches| && forall i | 0 <= i < |chunks| :: batches[i] == Ok(chunks[i])
    ensures Goods(batches) == chunks
  {
    if chunks != [] {
      GoodsAll(chunks[1..], batches[1..]);
    }
  }

  lemma ClearAll(db: Db, existing: seq<string>, puts: seq<Pair>)
    requires forall k | k in db :: k in existing
    ensures Batched(db, puts, existing) == PutAll(map[], [] + puts)
    ensures PutAll(map[], []) == map[]
    ensures existing == [] ==> db == map[]
  {
    assert Removed(db, existing) == map[];
    assert [] + puts == puts;
  }

  lemma NoDeletes(db: Db, puts: seq<Pair>)
    ensures Batched(db, puts, []) == PutAll(db, puts)
  {
    assert Removed(db, []) == db;
  }

  lemma BeyondNone(ps: seq<Pair>)
    ensures Beyond(ps, None) == ps[0..]
  {
  }

  lemma PageLast(all: seq<Pair>, n: nat, page: seq<Pair>)
    requires n <= |all| && page <= all[n..] && page != []
    ensures n + |page| <= |all| && page[|page| - 1] == all[n + |page| - 1]
  {
    var i := |page| - 1;
    assert page[i] == all[n..][i];
  }

  lemma PageJoins(all: seq<Pair>, n: nat, page: seq<Pair>)
    requires n <= |all| && page <= all[n..]
    ensures n + |page| <= |all| && all[..n] + page == all[..n + |page|]
  {
    var joined := all[..n] + page;
    forall i | 0 <= i < |joined|
      ensures joined[i] == all[i]
    {
      if i >= n {
        assert page[i - n] == all[n..][i - n];
      }
    }
  }

  lemma NextPage(all: seq<Pair>, n: nat, page: seq<Pair>)
    requires AscendingPairs(all) && n <= |all| && page <= all[n..] && page != []
    ensures n + |page| <= |all|
    ensures Beyond(all, Some(page[|page| - 1].key)) == all[n + |page|..]
    ensures all[..n] + page == all[..n + |page|]
  {
    hide Beyond, AscendingPairs;
    PageLast(all, n, page);
    PageJoins(all, n, page);
    var m := n + |page|;
    BeyondEntry(all, m - 1);
  }

  /** A stretch of the ordered keys that starts where the prefix would stand and runs while it
      matches holds all the matching keys. */
  lemma RangeIsScan(db: Db, prefix: string, ks: seq<string>, start: nat, end: nat)
    requires Lists(ks, db.Keys) && start <= end <= |ks|
    requires forall j | 0 <= j < start :: Below(ks[j], prefix)
    requires start < |ks| ==> !Below(ks[start], prefix)
    requires forall j | start <= j < end :: prefix <= ks[j]
    requires end < |ks| ==> !(prefix <= ks[end])
    ensures ks[start..end] == Sorted(KeysWith(db, prefix))
  {
    hide Below, AtMost;
    forall k
      ensures k in ks[start..end] <==> k in KeysWith(db, prefix)
    {
      if k in KeysWith(db, prefix) {
        assert k in ks;
        var i :| 0 <= i < |ks| && ks[i] == k;
        InRange(prefix, ks, start, end, i);
        assert ks[start..end][i - start] == k;
      }
      if k in ks[start..end] {
        var i :| start <= i < end && ks[i] == k;
        assert k in ks;
      }
    }
    forall i, j | 0 <= i < j < end - start
      ensures Below(ks[start..end][i], ks[start..end][j])
    {
      assert Below(ks[start + i], ks[start + j]);
    }
    SortedUnique(ks[start..end], KeysWith(db, prefix));
  }

  lemma InRange(prefix: string, ks: seq<string>, start: nat, end: nat, i: nat)
    requires Ascending(ks) && start <= end <= |ks| && i < |ks| && prefix <= ks[i]
    requires forall j | 0 <= j < start :: Below(ks[j], prefix)
    requires start < |ks| ==> !Below(ks[start], prefix)
    requires end < |ks| ==> !(prefix <= ks[end])
    ensures start <= i < end
  {
    hide Below;
    PrefixAtMost(prefix, ks[i]);
    if i < start {
      BelowAsymmetric(ks[i], prefix);
    }
    if end <= i {
      BelowTotal(ks[start], prefix);
      assert start < end ==> Below(ks[start], ks[end]);
      if start < end && prefix != ks[start] {
        BelowTransitive(prefix, ks[start], ks[end]);
      }
      assert AtMost(prefix, ks[end]);
      assert end < i ==> Below(ks[end], ks[i]);
      PrefixContiguous(prefix, ks[end], ks[i]);
    }
  }
}
