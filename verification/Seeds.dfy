/** The seed map of a cluster: `id@raft@http` entries separated by commas, and its comparison with
    the membership the cluster remembers. */
module Seeds {
  import opened Model
  import opened Order
  import opened Text

  datatype NodeInfo = NodeInfo(grpc: string, http: string, raft: string)

  type Table = map<nat, NodeInfo>

  const U64: nat := 0x1_0000_0000_0000_0000
  const U16: nat := 0x1_0000

  // ---------------- one entry ----------------

  /** host:port, the host not a wildcard, the port 1 to 65535. */
  predicate AddressOk(addr: string) {
    var parts := Split(addr, ':');
    && |parts| == 2
    && parts[0] != "" && parts[0] != "0.0.0.0" && parts[0] != "::"
    && ParseUint(parts[1], U16).Some? && ParseUint(parts[1], U16) != Some(0)
  }

  method ValidateSeedAddr(addr: string) returns (r: Result<()>)
    ensures r.Ok? <==> AddressOk(addr)
  {
    var parts := Split(addr, ':');
    if |parts| != 2 {
      return Err("must be host:port");
    }
    var host, port := parts[0], parts[1];
    if host == "" || host == "0.0.0.0" || host == "::" {
      return Err("wildcard host");
    }
    var portNum := ParseUint(port, U16);
    if portNum.None? {
      return Err("port must be 1-65535");
    }
    if portNum.value == 0 {
      return Err("port must not be 0");
    }
    r := Ok(());
  }

  datatype Seed = Seed(id: nat, raft: string, http: string)

  predicate SeedOk(s: Seed) {
    && 0 < s.id < U64
    && AddressOk(s.raft) && Lacks(s.raft, ',') && Lacks(s.raft, '@')
    && AddressOk(s.http) && Lacks(s.http, ',') && Lacks(s.http, '@')
  }

  /** The node an entry describes, if it is well formed. */
  function ReadSeed(entry: string): (s: Option<Seed>) {
    var parts := Split(entry, '@');
    if |parts| != 3 || !AddressOk(parts[1]) || !AddressOk(parts[2]) then None
    else
      match ParseUint(Trim(parts[0]), U64)
      case None => None
      case Some(id) => if id == 0 then None else Some(Seed(id, parts[1], parts[2]))
  }

  // ---------------- the whole map ----------------

  /** The entries of a seed map: trimmed, empty ones dropped. */
  function Entries(segments: seq<string>): (es: seq<string>) {
    if segments == [] then []
    else
      var e := Trim(segments[|segments| - 1]);
      Entries(segments[..|segments| - 1]) + if e == "" then [] else [e]
  }

  ghost predicate AllRead(es: seq<string>) {
    forall e | e in es :: ReadSeed(e).Some?
  }

  function SeedOf(e: string): Seed
    requires ReadSeed(e).Some?
  {
    ReadSeed(e).value
  }

  predicate Clash(a: Seed, b: Seed) {
    a.id == b.id || a.raft == b.raft || a.http == b.http
  }

  /** All entries are well formed and no two share an id, a raft or an HTTP address. */
  ghost predicate Compatible(es: seq<string>) {
    && AllRead(es)
    && forall i, j | 0 <= i < j < |es| :: !Clash(SeedOf(es[i]), SeedOf(es[j]))
  }

  ghost predicate Accepted(es: seq<string>) {
    es != [] && Compatible(es)
  }

  function InfoOf(s: Seed): NodeInfo {
    NodeInfo("", s.http, s.raft)
  }

  ghost function TableOf(es: seq<string>): (t: Table)
    requires AllRead(es)
  {
    if es == [] then map[]
    else
      var s := SeedOf(es[|es| - 1]);
      TableOf(es[..|es| - 1])[s.id := InfoOf(s)]
  }

  /** What parsing a seed map gives, if it is accepted. */
  ghost function ParsedTable(raw: string): (t: Option<Table>) {
    var es := Entries(Split(raw, ','));
    if Accepted(es) then Some(TableOf(es)) else None
  }

  /** The table holds exactly the nodes of the entries. */
  ghost predicate Holds(t: Table, es: seq<string>)
    requires AllRead(es)
  {
    && t.Keys == Ids(es)
    && forall e | e in es :: SeedOf(e).id in t && t[SeedOf(e).id] == InfoOf(SeedOf(e))
  }

  ghost function Ids(es: seq<string>): set<nat>
    requires AllRead(es)
  {
    set e | e in es :: SeedOf(e).id
  }

  lemma CompatibleFront(es: seq<string>, e: string)
    ensures Compatible(es + [e]) <==>
            && Compatible(es) && ReadSeed(e).Some?
            && forall d | d in es :: ReadSeed(d).Some? && !Clash(SeedOf(d), SeedOf(e))
  {
    hide ReadSeed, Clash;
    var all := es + [e];
    if Compatible(all) {
      assert all[|es|] == e;
      forall d | d in es
        ensures ReadSeed(d).Some? && !Clash(SeedOf(d), SeedOf(e))
      {
        var i :| 0 <= i < |es| && es[i] == d;
        assert all[i] == d && d in all;
      }
      forall i, j | 0 <= i < j < |es|
        ensures !Clash(SeedOf(es[i]), SeedOf(es[j]))
      {
        assert all[i] == es[i] && all[j] == es[j];
      }
    }
    if Compatible(es) && ReadSeed(e).Some? && forall d | d in es :: !Clash(SeedOf(d), SeedOf(e)) {
      forall i, j | 0 <= i < j < |all|
        ensures !Clash(SeedOf(all[i]), SeedOf(all[j]))
      {
        assert i < |es| && es[i] in es;
        if j < |es| {
          assert es[j] in es;
        }
      }
    }
  }

  lemma HoldsStep(t: Table, es: seq<string>, e: string)
    requires AllRead(es) && Holds(t, es) && ReadSeed(e).Some?
    requires forall d | d in es :: !Clash(SeedOf(d), SeedOf(e))
    ensures AllRead(es + [e]) && Holds(t[SeedOf(e).id := InfoOf(SeedOf(e))], es + [e])
  {
    hide ReadSeed, InfoOf;
    var all := es + [e];
    assert forall d | d in all :: d in es || d == e;
    assert Ids(all) == Ids(es) + {SeedOf(e).id} by {
      assert e in all && forall d | d in es :: d in all;
    }
  }

  lemma {:induction false} TableHolds(es: seq<string>)
    requires Compatible(es)
    ensures Holds(TableOf(es), es)
  {
    hide ReadSeed, Clash, SeedOf, InfoOf, Compatible, Holds;
    if es == [] {
      HoldsNone();
    } else {
      var n := |es| - 1;
      var front, e := es[..n], es[n];
      assert es == front + [e];
      CompatibleFront(front, e);
      CompatibleRead(front);
      TableHolds(front);
      HoldsStep(TableOf(front), front, e);
    }
  }

  lemma HoldsNone()
    ensures Holds(map[], [])
  {
  }

  lemma CompatibleRead(es: seq<string>)
    requires Compatible(es)
    ensures AllRead(es)
  {
  }

  lemma HoldsUnique(t: Table, u: Table, es: seq<string>, fs: seq<string>)
    requires AllRead(es) && AllRead(fs) && Holds(t, es) && Holds(u, fs)
    requires forall e :: e in es <==> e in fs
    ensures t == u
  {
    hide ReadSeed, InfoOf;
    assert Ids(es) == Ids(fs);
    forall id | id in t
      ensures id in u && u[id] == t[id]
    {
      var e :| e in es && SeedOf(e).id == id;
      assert e in fs;
    }
  }

  method ParseEntry(entry: string) returns (r: Result<Seed>)
    ensures r.Ok? <==> ReadSeed(entry).Some?
    ensures r.Ok? ==> ReadSeed(entry) == Some(r.value)
  {
    hide AddressOk, ParseUint;
    var parts := Split(entry, '@');
    if |parts| != 3 {
      return Err("entry must be node_id@raft_addr@http_addr");
    }
    var nodeId := ParseUint(Trim(parts[0]), U64);
    if nodeId.None? {
      return Err("node_id invalid");
    }
    if nodeId.value == 0 {
      return Err("node_id must not be 0");
    }
    var raftOk := ValidateSeedAddr(parts[1]);
    if raftOk.Err? {
      return Err(raftOk.message);
    }
    var httpOk := ValidateSeedAddr(parts[2]);
    if httpOk.Err? {
      return Err(httpOk.message);
    }
    r := Ok(Seed(nodeId.value, parts[1], parts[2]));
  }

  /** Parse `--bootstrap-peers`. */
  method ParseBootstrapPeers(raw: string) returns (r: Result<Table>)
    ensures r.Ok? <==> ParsedTable(raw).Some?
    ensures r.Ok? ==> ParsedTable(raw) == Some(r.value)
  {
    hide ReadSeed, Compatible, Seen, Split, Clash, TableOf, Entries, InfoOf;
    var table: Table := map[];
    var seenRaft: set<string>, seenHttp: set<string> := {}, {};
    var segments := Split(raw, ',');
    NoEntries(segments);
    ghost var es: seq<string> := [];
    assert table.Keys == {};
    for i := 0 to |segments|
      invariant es == Entries(segments[..i])
      invariant Compatible(es) && AllRead(es) && table == TableOf(es)
      invariant Seen(es, table.Keys, seenRaft, seenHttp)
      invariant table == map[] <==> es == []
    {
      EntriesNext(segments, i);
      var entry := Trim(segments[i]);
      if entry == "" {
        continue;
      }
      CompatibleFront(es, entry);
      if !Compatible(es + [entry]) {
        EntriesRest(segments, i + 1);
      }
      var read := ParseEntry(entry);
      if read.Err? {
        return Err(read.message);
      }
      var s := read.value;
      SeenStep(es, entry, table.Keys, seenRaft, seenHttp);
      if s.raft in seenRaft {
        return Err("raft_addr repeated");
      }
      seenRaft := seenRaft + {s.raft};
      if s.http in seenHttp {
        return Err("http_addr repeated");
      }
      seenHttp := seenHttp + {s.http};
      if s.id in table {
        return Err("node_id repeated");
      }
      CompatibleRead(es + [entry]);
      TableNext(es, entry);
      ghost var ids := table.Keys;
      table := table[s.id := NodeInfo("", s.http, s.raft)];
      assert table.Keys == ids + {s.id};
      es := es + [entry];
    }
    assert segments[..|segments|] == segments;
    if table == map[] {
      return Err("no entries");
    }
    r := Ok(table);
  }

  lemma EntriesNext(segments: seq<string>, i: nat)
    requires i < |segments|
    ensures var e := Trim(segments[i]);
            Entries(segments[..i + 1]) == if e == "" then Entries(segments[..i]) else Entries(segments[..i]) + [e]
  {
    assert segments[..i + 1][..i] == segments[..i];
  }

  lemma TableNext(es: seq<string>, e: string)
    requires AllRead(es) && AllRead(es + [e]) && ReadSeed(e).Some?
    ensures TableOf(es + [e]) ==
            TableOf(es)[ReadSeed(e).value.id := NodeInfo("", ReadSeed(e).value.http, ReadSeed(e).value.raft)]
  {
    assert (es + [e])[..|es|] == es;
  }

  lemma NoEntries(segments: seq<string>)
    ensures Compatible([]) && AllRead([]) && Entries(segments[..0]) == [] && TableOf([]) == map[]
    ensures Seen([], {}, {}, {})
  {
  }

  /** What has been met so far. */
  ghost predicate Seen(es: seq<string>, ids: set<nat>, rafts: set<string>, https: set<string>) {
    && AllRead(es)
    && ids == (set e | e in es :: SeedOf(e).id)
    && rafts == (set e | e in es :: SeedOf(e).raft)
    && https == (set e | e in es :: SeedOf(e).http)
  }

  lemma SeenStep(es: seq<string>, e: string, ids: set<nat>, rafts: set<string>, https: set<string>)
    requires Seen(es, ids, rafts, https) && ReadSeed(e).Some?
    ensures var s := SeedOf(e);
            && Seen(es + [e], ids + {s.id}, rafts + {s.raft}, https + {s.http})
            && ((forall d | d in es :: !Clash(SeedOf(d), s)) <==> s.id !in ids && s.raft !in rafts && s.http !in https)
  {
    hide ReadSeed;
  }

  /** An entry that breaks the map keeps it broken whatever follows. */
  lemma {:induction false} EntriesRest(segments: seq<string>, i: nat)
    requires i <= |segments| && !Compatible(Entries(segments[..i]))
    ensures !Compatible(Entries(segments))
    decreases |segments| - i
  {
    hide Compatible;
    if i < |segments| {
      assert segments[..i + 1][..i] == segments[..i];
      if Trim(segments[i]) != "" {
        CompatibleFront(Entries(segments[..i]), Trim(segments[i]));
      } else {
        assert Entries(segments[..i]) + [] == Entries(segments[..i]);
      }
      EntriesRest(segments, i + 1);
    } else {
      assert segments[..i] == segments;
    }
  }

  /** One more segment adds the entry it holds, blanks around it cut off, or nothing if it is blank: a
      trailing comma is harmless. */
  lemma ExtraSegment(raw: string, segment: string)
    requires Lacks(segment, ',')
    ensures Entries(Split(raw + "," + segment, ',')) ==
            Entries(Split(raw, ',')) + if Trim(segment) == "" then [] else [Trim(segment)]
    ensures Trim(segment) == "" ==> ParsedTable(raw + "," + segment) == ParsedTable(raw)
  {
    hide Split, Accepted, TableOf;
    SplitAppend(raw, segment, ',');
    SplitAfter(segment, "", ',');
    var parts := Split(raw, ',');
    assert (parts + [segment])[..|parts|] == parts;
    assert Entries(parts) + [] == Entries(parts);
  }

  // ---------------- the order of entries ----------------

  ghost predicate CompatibleBag(b: multiset<string>) {
    && (forall e | e in b :: ReadSeed(e).Some? && b[e] == 1)
    && forall d, e | d in b && e in b && d != e :: ReadSeed(d).Some? && ReadSeed(e).Some? && !Clash(SeedOf(d), SeedOf(e))
  }

  lemma ClashFacts(a: Seed, b: Seed)
    ensures Clash(a, b) == Clash(b, a) && Clash(a, a)
  {
  }

  lemma BagStep(b: multiset<string>, e: string)
    ensures CompatibleBag(b + multiset{e}) <==>
            && CompatibleBag(b) && ReadSeed(e).Some?
            && forall d | d in b :: ReadSeed(d).Some? && !Clash(SeedOf(d), SeedOf(e))
  {
    hide ReadSeed, Clash;
    var c := b + multiset{e};
    assert e in c && forall d | d in b :: d in c;
    if ReadSeed(e).Some? {
      ClashFacts(SeedOf(e), SeedOf(e));
    }
    if CompatibleBag(c) {
      assert c[e] == 1;
      assert forall d | d in b :: c[d] == 1 && d != e;
    }
    if CompatibleBag(b) && ReadSeed(e).Some? && forall d | d in b :: !Clash(SeedOf(d), SeedOf(e)) {
      assert e !in b;
      forall d | d in b
        ensures !Clash(SeedOf(d), SeedOf(e)) && !Clash(SeedOf(e), SeedOf(d))
      {
        ClashFacts(SeedOf(d), SeedOf(e));
      }
    }
  }

  lemma {:induction false} CompatibleByBag(es: seq<string>)
    ensures Compatible(es) <==> CompatibleBag(multiset(es))
  {
    hide ReadSeed, Clash, Compatible;
    if es == [] {
      NoEntries([]);
    } else {
      var n := |es| - 1;
      assert es == es[..n] + [es[n]];
      assert multiset(es) == multiset(es[..n]) + multiset{es[n]};
      CompatibleByBag(es[..n]);
      CompatibleFront(es[..n], es[n]);
      BagStep(multiset(es[..n]), es[n]);
      assert forall d :: d in es[..n] <==> d in multiset(es[..n]);
    }
  }

  /** Neither acceptance nor the table depends on the order of the entries. */
  lemma OrderIrrelevant(a: string, b: string)
    requires multiset(Entries(Split(a, ','))) == multiset(Entries(Split(b, ',')))
    ensures ParsedTable(a) == ParsedTable(b)
  {
    hide ReadSeed, Clash, Compatible, Holds, TableOf, CompatibleBag, Split;
    var es, fs := Entries(Split(a, ',')), Entries(Split(b, ','));
    CompatibleByBag(es);
    CompatibleByBag(fs);
    assert |es| == |multiset(es)| == |fs|;
    assert forall e :: e in es <==> e in multiset(es);
    assert forall e :: e in fs <==> e in multiset(fs);
    if Accepted(es) {
      CompatibleRead(es);
      CompatibleRead(fs);
      TableHolds(es);
      TableHolds(fs);
      HoldsUnique(TableOf(es), TableOf(fs), es, fs);
    }
  }

  // ---------------- printing a table ----------------

  function SeedAt(t: Table, id: nat): Seed
    requires id in t
  {
    Seed(id, t[id].raft, t[id].http)
  }

  /** The tables a seed map can express. */
  ghost predicate TableValid(t: Table) {
    && t != map[]
    && (forall id | id in t :: SeedOk(SeedAt(t, id)) && t[id].grpc == "")
    && forall i, j | i in t && j in t && i != j :: !Clash(SeedAt(t, i), SeedAt(t, j))
  }

  function EntryText(s: Seed): string {
    Decimal(s.id) + "@" + s.raft + "@" + s.http
  }

  function EntryTexts(t: Table, ids: seq<nat>): (r: seq<string>)
    requires forall id | id in ids :: id in t
    ensures |r| == |ids| && forall i | 0 <= i < |ids| :: r[i] == EntryText(SeedAt(t, ids[i]))
  {
    seq(|ids|, i requires 0 <= i < |ids| => EntryText(SeedAt(t, ids[i])))
  }

  ghost predicate Orders(ids: seq<nat>, t: Table) {
    && (forall id :: id in ids <==> id in t)
    && forall i, j | 0 <= i < j < |ids| :: ids[i] != ids[j]
  }

  /** The printed form of a table, its nodes in the order `ids`. */
  function Printed(t: Table, ids: seq<nat>): string
    requires forall id | id in ids :: id in t
  {
    Join(EntryTexts(t, ids), ',')
  }

  lemma AddressEnds(addr: string)
    requires AddressOk(addr)
    ensures addr != "" && !IsSpace(addr[|addr| - 1])
  {
    hide Split;
    var parts := Split(addr, ':');
    JoinSplit(addr, ':');
    assert parts == [parts[0], parts[1]];
    assert addr == parts[0] + [':'] + parts[1] by {
      assert parts[1..] == [parts[1]];
    }
    var port := parts[1];
    var t := if port[0] == '+' then port[1..] else port;
    assert Digits(t) && t != "";
    assert addr[|addr| - 1] == t[|t| - 1];
    assert IsDigit(t[|t| - 1]);
  }

  lemma EntryTextRead(s: Seed)
    requires SeedOk(s)
    ensures var e := EntryText(s); ReadSeed(e) == Some(s) && Trim(e) == e && e != "" && Lacks(e, ',')
  {
    hide Split, AddressOk, ParseUint, Decimal;
    var d := Decimal(s.id);
    DecimalValue(s.id);
    DigitsLack(d, '@');
    DigitsLack(d, ',');
    assert IsDigit(d[0]) && IsDigit(d[|d| - 1]);
    AddressEnds(s.http);
    ParsePrinted(s.id, U64);
    var e := EntryText(s);
    SplitAfter(s.http, "", '@');
    SplitAfter(s.raft, s.http, '@');
    SplitAfter(d, s.raft + "@" + s.http, '@');
    assert e == d + "@" + (s.raft + "@" + s.http);
    assert Split(e, '@') == [d, s.raft, s.http];
    assert e[0] == d[0] && e[|e| - 1] == s.http[|s.http| - 1];
  }

  lemma {:induction false} EntriesTrimmed(segments: seq<string>)
    requires forall i | 0 <= i < |segments| :: Trim(segments[i]) == segments[i] && segments[i] != ""
    ensures Entries(segments) == segments
  {
    hide Trim;
    if segments != [] {
      EntriesTrimmed(segments[..|segments| - 1]);
      assert segments == segments[..|segments| - 1] + [segments[|segments| - 1]];
    }
  }

  lemma PrintedParses(t: Table, ids: seq<nat>)
    requires Orders(ids, t) && TableValid(t)
    ensures ParsedTable(Printed(t, ids)) == Some(t)
  {
    hide ReadSeed, Trim, Split, Join, EntryText, SeedOk, TableOf, Entries, Lacks, EntryTexts, Clash;
    var es := EntryTexts(t, ids);
    forall i | 0 <= i < |ids|
      ensures ReadSeed(es[i]) == Some(SeedAt(t, ids[i])) && Trim(es[i]) == es[i] && es[i] != "" && Lacks(es[i], ',')
    {
      assert ids[i] in ids;
      EntryTextRead(SeedAt(t, ids[i]));
    }
    if es == [] {
      NoKeys(t);
    }
    SplitJoin(es, ',');
    EntriesTrimmed(es);
    assert AllRead(es);
    forall i, j | 0 <= i < j < |es|
      ensures !Clash(SeedOf(es[i]), SeedOf(es[j]))
    {
      assert ids[i] in ids && ids[j] in ids && ids[i] != ids[j];
    }
    TableHolds(es);
    PrintedHolds(t, ids, es);
    HoldsUnique(t, TableOf(es), es, es);
  }

  lemma NoKeys(t: Table)
    ensures t == map[] <==> forall id :: id !in t
  {
    if forall id :: id !in t {
      assert t.Keys == {};
    }
  }

  lemma PrintedHolds(t: Table, ids: seq<nat>, es: seq<string>)
    requires Orders(ids, t) && TableValid(t) && AllRead(es) && |es| == |ids|
    requires forall i | 0 <= i < |ids| :: ids[i] in t && ReadSeed(es[i]) == Some(SeedAt(t, ids[i]))
    ensures Holds(t, es)
  {
    hide ReadSeed, SeedOk, Clash;
    forall id
      ensures id in t.Keys <==> id in Ids(es)
    {
      if id in t {
        assert id in ids;
        var i :| 0 <= i < |ids| && ids[i] == id;
        assert es[i] in es && SeedOf(es[i]).id == id;
      }
      if id in Ids(es) {
        var e :| e in es && SeedOf(e).id == id;
        var i :| 0 <= i < |es| && es[i] == e;
        assert ids[i] == id;
      }
    }
    assert t.Keys == Ids(es);
    forall e | e in es
      ensures SeedOf(e).id in t && t[SeedOf(e).id] == InfoOf(SeedOf(e))
    {
      var i :| 0 <= i < |es| && es[i] == e;
      assert SeedOf(e) == SeedAt(t, ids[i]);
    }
  }

  lemma {:induction false} PartChars(s: string, c: char, i: nat, x: char)
    requires i < |Split(s, c)| && Lacks(s, x)
    ensures Lacks(Split(s, c)[i], x)
  {
    if s != "" {
      assert Lacks(s[1..], x) && s[0] in s;
      var rest := Split(s[1..], c);
      if s[0] == c {
        if i > 0 {
          PartChars(s[1..], c, i - 1, x);
        }
      } else {
        PartChars(s[1..], c, i, x);
      }
    }
  }

  lemma ReadSeedOk(e: string)
    requires Lacks(e, ',') && ReadSeed(e).Some?
    ensures SeedOk(SeedOf(e))
  {
    hide Split, AddressOk, Lacks;
    SplitLacks(e, '@');
    PartChars(e, '@', 1, ',');
    PartChars(e, '@', 2, ',');
  }

  lemma {:induction false} EntriesLack(segments: seq<string>, e: string)
    requires AllLack(segments, ',') && e in Entries(segments)
    ensures Lacks(e, ',')
  {
    if segments != [] {
      var n := |segments| - 1;
      if e in Entries(segments[..n]) {
        EntriesLack(segments[..n], e);
      } else {
        assert e == Trim(segments[n]) && Lacks(segments[n], ',');
      }
    }
  }

  /** Every accepted seed map gives a valid table: in particular no two of its nodes share a raft or
      an HTTP address. */
  lemma ParsedValid(raw: string)
    requires ParsedTable(raw).Some?
    ensures TableValid(ParsedTable(raw).value)
  {
    hide ReadSeed, SeedOk, Split, Entries, TableOf, Lacks, Clash;
    var es := Entries(Split(raw, ','));
    var t := TableOf(es);
    SplitLacks(raw, ',');
    TableHolds(es);
    assert es[0] in es;
    forall id | id in t
      ensures exists i :: 0 <= i < |es| && SeedOf(es[i]) == SeedAt(t, id) && SeedOk(SeedAt(t, id)) && t[id].grpc == ""
    {
      assert id in Ids(es);
      var e :| e in es && SeedOf(e).id == id;
      EntriesLack(Split(raw, ','), e);
      ReadSeedOk(e);
      var i :| 0 <= i < |es| && es[i] == e;
      assert SeedOf(es[i]) == SeedAt(t, id);
    }
    forall id, jd | id in t && jd in t && id != jd
      ensures !Clash(SeedAt(t, id), SeedAt(t, jd))
    {
      var i :| 0 <= i < |es| && SeedOf(es[i]) == SeedAt(t, id);
      var j :| 0 <= j < |es| && SeedOf(es[j]) == SeedAt(t, jd);
      ClashFacts(SeedAt(t, id), SeedAt(t, jd));
      assert i != j;
    }
  }

  /** Parsing the printed form gives back the table if and only if the table is one a seed map can
      express, whatever the order of its nodes. */
  lemma RoundTripIff(t: Table, ids: seq<nat>)
    requires Orders(ids, t)
    ensures ParsedTable(Printed(t, ids)) == Some(t) <==> TableValid(t)
  {
    hide ParsedTable, Printed, TableValid;
    if TableValid(t) {
      PrintedParses(t, ids);
    }
    if ParsedTable(Printed(t, ids)) == Some(t) {
      ParsedValid(Printed(t, ids));
    }
  }

  // ---------------- seed map against membership ----------------

  datatype Difference =
    | NotInCluster(id: nat)
    | RaftDiffers(id: nat, seed: string, current: string)
    | HttpDiffers(id: nat, seed: string, current: string)
    | NotInSeed(id: nat, raft: string)

  ghost predicate Differs(seed: Table, current: Table, d: Difference) {
    match d
    case NotInCluster(id) => id in seed && id !in current
    case RaftDiffers(id, a, b) => id in seed && id in current && a == seed[id].raft && b == current[id].raft && a != b
    case HttpDiffers(id, a, b) => id in seed && id in current && a == seed[id].http && b == current[id].http && a != b
    case NotInSeed(id, raft) => id in current && id !in seed && raft == current[id].raft
  }

  /** Same nodes with the same raft and HTTP addresses. */
  ghost predicate Agree(seed: Table, current: Table) {
    seed.Keys == current.Keys
    && forall id | id in seed :: seed[id].raft == current[id].raft && seed[id].http == current[id].http
  }

  /** The differences of one node of the seed map. */
  method NodeDiffs(seed: Table, current: Table, id: nat) returns (ds: seq<Difference>)
    requires id in seed
    ensures forall d :: d in ds <==> d.id == id && Differs(seed, current, d)
  {
    ds := [];
    if id !in current {
      ds := [NotInCluster(id)];
    } else {
      if current[id].raft != seed[id].raft {
        ds := ds + [RaftDiffers(id, seed[id].raft, current[id].raft)];
      }
      if current[id].http != seed[id].http {
        ds := ds + [HttpDiffers(id, seed[id].http, current[id].http)];
      }
    }
  }

  /** Reports exactly the differences there are, and nothing if and only if seed map and membership
      agree on nodes and addresses. */
  method MembershipDiff(seed: Table, current: Table) returns (r: Option<seq<Difference>>)
    ensures r.None? <==> Agree(seed, current)
    ensures r.Some? ==> forall d :: d in r.value <==> Differs(seed, current, d)
  {
    hide Differs, Agree;
    var ds: seq<Difference> := [];
    var ids := NatsInOrder(seed.Keys);
    for i := 0 to |ids|
      invariant forall d :: d in ds <==> d.id in ids[..i] && Differs(seed, current, d)
    {
      assert ids[i] in ids;
      var more := NodeDiffs(seed, current, ids[i]);
      assert ids[..i + 1] == ids[..i] + [ids[i]];
      ds := ds + more;
    }
    assert ids[..|ids|] == ids;
    ghost var first := ds;
    var others := NatsInOrder(current.Keys);
    for i := 0 to |others|
      invariant forall d :: d in ds <==> d in first || (d.id in others[..i] && d.id !in seed && Differs(seed, current, d))
    {
      var id := others[i];
      assert id in others;
      assert others[..i + 1] == others[..i] + [id];
      if id !in seed {
        OnlyInCurrent(seed, current, id);
        ds := ds + [NotInSeed(id, current[id].raft)];
      }
    }
    assert others[..|others|] == others;
    forall d
      ensures d in ds <==> Differs(seed, current, d)
    {
      DiffersSomewhere(seed, current, d);
    }
    AgreeIff(seed, current);
    if ds == [] {
      r := None;
    } else {
      assert ds[0] in ds;
      r := Some(ds);
    }
  }

  lemma OnlyInCurrent(seed: Table, current: Table, id: nat)
    requires id in current && id !in seed
    ensures forall d: Difference | d.id == id :: Differs(seed, current, d) <==> d == NotInSeed(id, current[id].raft)
  {
  }

  lemma DiffersSomewhere(seed: Table, current: Table, d: Difference)
    ensures Differs(seed, current, d) ==> d.id in seed || d.id in current
  {
  }

  lemma AgreeIff(seed: Table, current: Table)
    ensures Agree(seed, current) <==> forall d :: !Differs(seed, current, d)
  {
    if forall d :: !Differs(seed, current, d) {
      forall id: nat
        ensures id in seed <==> id in current
        ensures id in seed && id in current ==> seed[id].raft == current[id].raft && seed[id].http == current[id].http
      {
        assert !Differs(seed, current, NotInCluster(id));
        if id in seed && id in current {
          assert !Differs(seed, current, RaftDiffers(id, seed[id].raft, current[id].raft));
          assert !Differs(seed, current, HttpDiffers(id, seed[id].http, current[id].http));
        }
        if id in current {
          assert !Differs(seed, current, NotInSeed(id, current[id].raft));
        }
      }
    }
  }

  // ---------------- addresses ----------------

  /** A number from 1 to 65535 in decimal, with or without a plus sign. */
  ghost predicate IsPort(port: string) {
    exists t :: (port == t || port == "+" + t) && t != "" && Digits(t) && 0 < ValueOf(t) < 0x1_0000
  }

  /** A host, which is not a wildcard, and a port. */
  ghost predicate IsHostPort(addr: string, host: string, port: string) {
    && addr == host + ":" + port && Lacks(host, ':') && Lacks(port, ':')
    && host != "" && host != "0.0.0.0" && IsPort(port)
  }

  lemma PortExact(port: string)
    ensures ParseUint(port, U16).Some? && ParseUint(port, U16) != Some(0) <==> IsPort(port)
  {
    if IsPort(port) {
      var t :| (port == t || port == "+" + t) && t != "" && Digits(t) && 0 < ValueOf(t) < 0x1_0000;
      if port == t {
        assert IsDigit(t[0]);
      } else {
        assert port[1..] == t;
      }
    }
    if ParseUint(port, U16).Some? && ParseUint(port, U16) != Some(0) {
      var t := if port != "" && port[0] == '+' then port[1..] else port;
      assert port == t || port == "+" + t;
    }
  }

  /** The addresses accepted, in plain terms. */
  lemma AddressOkExact(addr: string)
    ensures AddressOk(addr) <==> exists host, port :: IsHostPort(addr, host, port)
  {
    hide Split, ParseUint, IsPort;
    if AddressOk(addr) {
      var parts := Split(addr, ':');
      var host, port := parts[0], parts[1];
      JoinSplit(addr, ':');
      SplitLacks(addr, ':');
      assert parts[1..] == [port];
      PortExact(port);
      assert IsHostPort(addr, host, port);
    }
    if host, port :| IsHostPort(addr, host, port) {
      SplitAfter(host, port, ':');
      SplitAfter(port, "", ':');
      PortExact(port);
      assert Split(addr, ':') == [host, port];
      assert "::"[0] == ':' && Lacks(host, ':') ==> host != "::";
    }
  }

  /** Every node of an accepted seed map has a non-zero 64-bit id, and two addresses whose hosts are no
      wildcards and whose ports are numbers from 1 to 65535. */
  lemma AcceptedReachable(raw: string, id: nat)
    requires ParsedTable(raw).Some? && id in ParsedTable(raw).value
    ensures var node := ParsedTable(raw).value[id];
            && 0 < id < 0x1_0000_0000_0000_0000
            && (exists host, port :: IsHostPort(node.raft, host, port))
            && (exists host, port :: IsHostPort(node.http, host, port))
  {
    hide ParsedTable, AddressOk, IsHostPort;
    ParsedValid(raw);
    var t := ParsedTable(raw).value;
    assert SeedOk(SeedAt(t, id));
    AddressOkExact(t[id].raft);
    AddressOkExact(t[id].http);
  }
}
