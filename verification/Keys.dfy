/** The layout of keys in the store: what each kind of row is called, and which rows a prefix
    reaches. */
module Keys {
  import opened Model
  import opened Order
  import opened Text
  import opened Store
  import opened RewrapJob

  /** One constructor per kind of row. */
  datatype Name =
    | Project(id: string)
    | Struct(id: string)
    | StructDraft(id: string)
    | BranchState(id: string, branch: string)
    | Version(id: string, branch: string, no: nat)
    | Snapshot(id: string, branch: string, no: nat)
    | VersionDiff(id: string, branch: string, no: nat)
    | GraySnap(id: string, branch: string, no: nat)
    | Shared(item: string)
    | SharedDraft(item: string)
    | Session
    | SessionWith(sid: string)
    | AdminPassword
    | ProjectAdmin(user: string)
    | PaSession(user: string)
    | PaSessionWith(user: string, sid: string)
    | GlobalAdmin(user: string)
    | GaSessionWith(user: string, sid: string)
    | Audit(no: nat)
    | AuditCounter
    | ProjectNameIndex(name: string)
    | DataToken(hash: string)

  const AUDIT_WIDTH: nat := 20

  function BranchPrefix(id: string, b: string): (prefix: string) {
    "p/" + id + "/b/" + b
  }

  /** The key of a row, as it is formatted. */
  function KeyOf(n: Name): (key: string) {
    match n
    case Project(id) => "p/" + id
    case Struct(id) => "p/" + id + "/struct"
    case StructDraft(id) => "p/" + id + "/struct-draft"
    case BranchState(id, b) => BranchPrefix(id, b) + "/state"
    case Version(id, b, no) => BranchPrefix(id, b) + "/v/" + Decimal(no)
    case Snapshot(id, b, no) => BranchPrefix(id, b) + "/v/" + Decimal(no) + "/snap"
    case VersionDiff(id, b, no) => BranchPrefix(id, b) + "/v/" + Decimal(no) + "/diff"
    case GraySnap(id, b, no) => BranchPrefix(id, b) + "/gray-snap/" + Decimal(no)
    case Shared(item) => "sh/" + item
    case SharedDraft(item) => "sh-draft/" + item
    case Session => "sess/admin"
    case SessionWith(sid) => "sess/admin/" + sid
    case AdminPassword => "sess/admin-pw"
    case ProjectAdmin(u) => "adm/pa/" + u
    case PaSession(u) => "sess/pa/" + u
    case PaSessionWith(u, sid) => "sess/pa/" + u + "/" + sid
    case GlobalAdmin(u) => "adm/ga/" + u
    case GaSessionWith(u, sid) => "sess/ga/" + u + "/" + sid
    case Audit(no) => "audit/" + Padded(no, AUDIT_WIDTH)
    case AuditCounter => "audit/seq"
    case ProjectNameIndex(name) => "idx/pname/" + name
    case DataToken(hash) => "tok/" + hash
  }

  /** The parts between slashes. */
  function Parts(n: Name): (parts: seq<string>) {
    match n
    case Project(id) => ["p", id]
    case Struct(id) => ["p", id, "struct"]
    case StructDraft(id) => ["p", id, "struct-draft"]
    case BranchState(id, b) => ["p", id, "b", b, "state"]
    case Version(id, b, no) => ["p", id, "b", b, "v", Decimal(no)]
    case Snapshot(id, b, no) => ["p", id, "b", b, "v", Decimal(no), "snap"]
    case VersionDiff(id, b, no) => ["p", id, "b", b, "v", Decimal(no), "diff"]
    case GraySnap(id, b, no) => ["p", id, "b", b, "gray-snap", Decimal(no)]
    case Shared(item) => ["sh", item]
    case SharedDraft(item) => ["sh-draft", item]
    case Session => ["sess", "admin"]
    case SessionWith(sid) => ["sess", "admin", sid]
    case AdminPassword => ["sess", "admin-pw"]
    case ProjectAdmin(u) => ["adm", "pa", u]
    case PaSession(u) => ["sess", "pa", u]
    case PaSessionWith(u, sid) => ["sess", "pa", u, sid]
    case GlobalAdmin(u) => ["adm", "ga", u]
    case GaSessionWith(u, sid) => ["sess", "ga", u, sid]
    case Audit(no) => ["audit", Padded(no, AUDIT_WIDTH)]
    case AuditCounter => ["audit", "seq"]
    case ProjectNameIndex(name) => ["idx", "pname", name]
    case DataToken(hash) => ["tok", hash]
  }

  /** No name, user, item or id in it has a slash. */
  predicate Plain(n: Name) {
    match n
    case Project(id) => Lacks(id, '/')
    case Struct(id) => Lacks(id, '/')
    case StructDraft(id) => Lacks(id, '/')
    case BranchState(id, b) => Lacks(id, '/') && Lacks(b, '/')
    case Version(id, b, _) => Lacks(id, '/') && Lacks(b, '/')
    case Snapshot(id, b, _) => Lacks(id, '/') && Lacks(b, '/')
    case VersionDiff(id, b, _) => Lacks(id, '/') && Lacks(b, '/')
    case GraySnap(id, b, _) => Lacks(id, '/') && Lacks(b, '/')
    case Shared(item) => Lacks(item, '/')
    case SharedDraft(item) => Lacks(item, '/')
    case Session => true
    case SessionWith(sid) => Lacks(sid, '/')
    case AdminPassword => true
    case ProjectAdmin(u) => Lacks(u, '/')
    case PaSession(u) => Lacks(u, '/')
    case PaSessionWith(u, sid) => Lacks(u, '/') && Lacks(sid, '/')
    case GlobalAdmin(u) => Lacks(u, '/')
    case GaSessionWith(u, sid) => Lacks(u, '/') && Lacks(sid, '/')
    case Audit(_) => true
    case AuditCounter => true
    case ProjectNameIndex(name) => Lacks(name, '/')
    case DataToken(hash) => Lacks(hash, '/')
  }

  // ---------------- keys are joined parts ----------------

  lemma {:induction false} JoinSnoc(parts: seq<string>, x: string)
    requires parts != []
    ensures Join(parts + [x], '/') == Join(parts, '/') + ("/" + x)
  {
    if |parts| == 1 {
      assert (parts + [x])[1..] == [x];
      assert parts[0] + "/" + x == parts[0] + ("/" + x);
    } else {
      JoinSnoc(parts[1..], x);
      assert (parts + [x])[1..] == parts[1..] + [x];
      assert parts[0] + "/" + (Join(parts[1..], '/') + ("/" + x)) == parts[0] + "/" + Join(parts[1..], '/') + ("/" + x);
    }
  }

  lemma Slashes(a: string, mid: string, b: string)
    ensures a + ("/" + mid + "/") + b == a + ("/" + mid) + ("/" + b)
    ensures a + "/" + b == a + ("/" + b)
  {
  }

  lemma Join2(a: string, b: string)
    ensures Join([a, b], '/') == a + ("/" + b)
  {
    JoinSnoc([a], b);
    assert [a] + [b] == [a, b];
  }

  lemma Join3(a: string, b: string, c: string)
    ensures Join([a, b, c], '/') == a + ("/" + b) + ("/" + c)
  {
    Join2(a, b);
    JoinSnoc([a, b], c);
    assert [a, b] + [c] == [a, b, c];
  }

  lemma BranchPrefixJoined(id: string, b: string)
    ensures BranchPrefix(id, b) == Join(["p", id, "b", b], '/')
  {
    Join3("p", id, "b");
    JoinSnoc(["p", id, "b"], b);
    assert ["p", id, "b"] + [b] == ["p", id, "b", b];
    Slashes("p" + ("/" + id), "b", b);
    assert "p/" + id == "p" + ("/" + id);
    assert "/b/" == "/" + "b" + "/";
  }

  lemma BranchRowJoined(id: string, b: string, x: string)
    ensures BranchPrefix(id, b) + ("/" + x) == Join(["p", id, "b", b, x], '/')
  {
    hide Join, BranchPrefix;
    BranchPrefixJoined(id, b);
    JoinSnoc(["p", id, "b", b], x);
    assert ["p", id, "b", b] + [x] == ["p", id, "b", b, x];
  }

  lemma NumberedRowJoined(id: string, b: string, x: string, no: string)
    ensures BranchPrefix(id, b) + ("/" + x + "/") + no == Join(["p", id, "b", b, x, no], '/')
  {
    hide Join, BranchPrefix;
    BranchRowJoined(id, b, x);
    JoinSnoc(["p", id, "b", b, x], no);
    assert ["p", id, "b", b, x] + [no] == ["p", id, "b", b, x, no];
    Slashes(BranchPrefix(id, b), x, no);
  }

  lemma VersionRowJoined(id: string, b: string, no: string, x: string)
    ensures BranchPrefix(id, b) + "/v/" + no + ("/" + x) == Join(["p", id, "b", b, "v", no, x], '/')
  {
    hide Join, BranchPrefix;
    NumberedRowJoined(id, b, "v", no);
    assert "/v/" == "/" + "v" + "/";
    JoinSnoc(["p", id, "b", b, "v", no], x);
    assert ["p", id, "b", b, "v", no] + [x] == ["p", id, "b", b, "v", no, x];
  }

  lemma BranchKeyIsJoined(n: Name)
    requires n.BranchState? || n.Version? || n.Snapshot? || n.VersionDiff? || n.GraySnap?
    ensures KeyOf(n) == Join(Parts(n), '/')
  {
    hide Join, Decimal, BranchPrefix;
    match n
    case BranchState(id, b) =>
      BranchRowJoined(id, b, "state");
      assert "/state" == "/" + "state";
    case Version(id, b, no) =>
      NumberedRowJoined(id, b, "v", Decimal(no));
      assert "/v/" == "/" + "v" + "/";
    case Snapshot(id, b, no) =>
      VersionRowJoined(id, b, Decimal(no), "snap");
      assert "/snap" == "/" + "snap";
    case VersionDiff(id, b, no) =>
      VersionRowJoined(id, b, Decimal(no), "diff");
      assert "/diff" == "/" + "diff";
    case GraySnap(id, b, no) =>
      NumberedRowJoined(id, b, "gray-snap", Decimal(no));
      assert "/gray-snap/" == "/" + "gray-snap" + "/";
  }

  lemma Pair2(a: string, slashed: string, x: string)
    requires slashed == a + "/"
    ensures Join([a, x], '/') == slashed + x
  {
    Join2(a, x);
    Slashes(a, "", x);
  }

  lemma Triple(a: string, b: string, slashed: string, x: string)
    requires slashed == a + "/" + b + "/"
    ensures Join([a, b, x], '/') == slashed + x
  {
    Join3(a, b, x);
    assert slashed == a + ("/" + b + "/");
    Slashes(a, b, x);
  }

  lemma Quad(a: string, b: string, slashed: string, x: string, y: string)
    requires slashed == a + "/" + b + "/"
    ensures Join([a, b, x, y], '/') == slashed + x + "/" + y
    ensures Join([a, b, x, y], '/') == slashed + x + ("/" + y)
  {
    Triple(a, b, slashed, x);
    JoinSnoc([a, b, x], y);
    assert [a, b, x] + [y] == [a, b, x, y];
    Slashes(slashed + x, "", y);
  }

  lemma ProjectKeyIsJoined(id: string, x: string)
    ensures Join(["p", id], '/') == "p/" + id
    ensures Join(["p", id, x], '/') == "p/" + id + ("/" + x)
  {
    Pair2("p", "p/", id);
    JoinSnoc(["p", id], x);
    assert ["p", id] + [x] == ["p", id, x];
  }

  lemma SessionKeyIsJoined(n: Name)
    requires n.Session? || n.SessionWith? || n.AdminPassword? || n.PaSession? || n.PaSessionWith? || n.GaSessionWith?
    ensures KeyOf(n) == Join(Parts(n), '/')
  {
    hide Join;
    match n
    case Session => Pair2("sess", "sess/", "admin");
    case SessionWith(sid) => Triple("sess", "admin", "sess/admin/", sid);
    case AdminPassword => Pair2("sess", "sess/", "admin-pw");
    case PaSession(u) => Triple("sess", "pa", "sess/pa/", u);
    case PaSessionWith(u, sid) => Quad("sess", "pa", "sess/pa/", u, sid);
    case GaSessionWith(u, sid) => Quad("sess", "ga", "sess/ga/", u, sid);
  }

  lemma KeyIsJoined(n: Name)
    ensures KeyOf(n) == Join(Parts(n), '/')
  {
    hide Join, Decimal, Padded;
    match n
    case Project(id) => ProjectKeyIsJoined(id, "");
    case Struct(id) =>
      ProjectKeyIsJoined(id, "struct");
      assert "/struct" == "/" + "struct";
    case StructDraft(id) =>
      ProjectKeyIsJoined(id, "struct-draft");
      assert "/struct-draft" == "/" + "struct-draft";
    case Shared(item) => Pair2("sh", "sh/", item);
    case SharedDraft(item) => Pair2("sh-draft", "sh-draft/", item);
    case ProjectAdmin(u) => Triple("adm", "pa", "adm/pa/", u);
    case GlobalAdmin(u) => Triple("adm", "ga", "adm/ga/", u);
    case Audit(no) => Pair2("audit", "audit/", Padded(no, AUDIT_WIDTH));
    case AuditCounter => Pair2("audit", "audit/", "seq");
    case ProjectNameIndex(name) => Triple("idx", "pname", "idx/pname/", name);
    case DataToken(hash) => Pair2("tok", "tok/", hash);
    case BranchState(_, _) => BranchKeyIsJoined(n);
    case Version(_, _, _) => BranchKeyIsJoined(n);
    case Snapshot(_, _, _) => BranchKeyIsJoined(n);
    case VersionDiff(_, _, _) => BranchKeyIsJoined(n);
    case GraySnap(_, _, _) => BranchKeyIsJoined(n);
    case Session => SessionKeyIsJoined(n);
    case SessionWith(_) => SessionKeyIsJoined(n);
    case AdminPassword => SessionKeyIsJoined(n);
    case PaSession(_) => SessionKeyIsJoined(n);
    case PaSessionWith(_, _) => SessionKeyIsJoined(n);
    case GaSessionWith(_, _) => SessionKeyIsJoined(n);
  }

  lemma PartsLack(n: Name)
    requires Plain(n)
    ensures AllLack(Parts(n), '/')
  {
    hide Decimal, Padded;
    if n.Version? || n.Snapshot? || n.VersionDiff? || n.GraySnap? {
      DecimalValue(n.no);
      DigitsLack(Decimal(n.no), '/');
    }
    if n.Audit? {
      PaddedValue(n.no, AUDIT_WIDTH);
      DigitsLack(Padded(n.no, AUDIT_WIDTH), '/');
    }
  }

  /** Cutting a key at its slashes gives back the parts it was made from. */
  lemma KeyParts(n: Name)
    requires Plain(n)
    ensures Split(KeyOf(n), '/') == Parts(n)
  {
    hide KeyOf, Join, Split;
    KeyIsJoined(n);
    PartsLack(n);
    SplitJoin(Parts(n), '/');
  }

  // ---------------- names can be read back ----------------

  ghost function Number(s: string): nat {
    if Digits(s) then ValueOf(s) else 0
  }

  /** The row a list of parts names, for the parts of some row. */
  ghost function NameOf(p: seq<string>): (n: Name) {
    match |p|
    case 2 =>
      if p[0] == "p" then Project(p[1])
      else if p[0] == "sh" then Shared(p[1])
      else if p[0] == "sh-draft" then SharedDraft(p[1])
      else if p[0] == "tok" then DataToken(p[1])
      else if p[0] == "audit" then (if Digits(p[1]) then Audit(ValueOf(p[1])) else AuditCounter)
      else if p[1] == "admin" then Session else AdminPassword
    case 3 =>
      if p[0] == "p" then (if p[2] == "struct" then Struct(p[1]) else StructDraft(p[1]))
      else if p[0] == "sess" then (if p[1] == "admin" then SessionWith(p[2]) else PaSession(p[2]))
      else if p[0] == "idx" then ProjectNameIndex(p[2])
      else if p[1] == "pa" then ProjectAdmin(p[2]) else GlobalAdmin(p[2])
    case 4 => if p[1] == "pa" then PaSessionWith(p[2], p[3]) else GaSessionWith(p[2], p[3])
    case 5 => BranchState(p[1], p[3])
    case 6 => if p[4] == "v" then Version(p[1], p[3], Number(p[5])) else GraySnap(p[1], p[3], Number(p[5]))
    case 7 => if p[6] == "snap" then Snapshot(p[1], p[3], Number(p[5])) else VersionDiff(p[1], p[3], Number(p[5]))
    case _ => Session
  }

  lemma NameReadBack(n: Name)
    ensures NameOf(Parts(n)) == n
  {
    hide Decimal, Padded, ValueOf;
    if n.Version? || n.Snapshot? || n.VersionDiff? || n.GraySnap? {
      DecimalValue(n.no);
    }
    if n.Audit? {
      PaddedValue(n.no, AUDIT_WIDTH);
    }
    assert "pa"[0] != "ga"[0] && "snap"[0] != "diff"[0] && "adm"[0] != "idx"[0] && !IsDigit("seq"[0]);
  }

  /** Keys are injective and the kinds are pairwise disjoint: equal keys are keys of one row. */
  lemma KeysInjective(n: Name, m: Name)
    requires Plain(n) && Plain(m) && KeyOf(n) == KeyOf(m)
    ensures n == m
  {
    hide KeyOf, Parts, Plain, NameOf, Split;
    KeyParts(n);
    KeyParts(m);
    NameReadBack(n);
    NameReadBack(m);
  }

  /** Without that it fails: a project whose id has a slash takes another project's row. */
  lemma SlashCollides(id: string)
    ensures KeyOf(Project(id + "/struct")) == KeyOf(Struct(id))
  {
    assert "p/" + (id + "/struct") == "p/" + id + "/struct";
  }

  // ---------------- prefixes ----------------

  /** A prefix given by its parts reaches a row exactly when the row's parts continue it. */
  lemma PrefixReaches(ps: seq<string>, n: Name)
    requires Plain(n) && ps != [] && AllLack(ps, '/')
    ensures Join(ps, '/') <= KeyOf(n) <==> PartsPrefix(ps, Parts(n))
  {
    hide KeyOf, Parts, Plain, Split, PartsPrefix;
    SplitJoin(ps, '/');
    KeyParts(n);
    PrefixParts(Join(ps, '/'), KeyOf(n), '/');
  }

  lemma PrefixLacks(a: string, b: string, c: string, d: string)
    requires Lacks(a, '/') && Lacks(b, '/') && Lacks(c, '/') && Lacks(d, '/')
    ensures AllLack([a, b], '/') && AllLack([a, b, c], '/') && AllLack([a, b, c, d], '/')
  {
  }

  lemma Prefix2(a: string, b: string, ks: seq<string>)
    ensures PartsPrefix([a, b], ks) <==> |ks| >= 2 && ks[0] == a && b <= ks[1]
  {
    if |ks| >= 2 {
      assert [a, b][..1] == [a] && ks[..1] == [ks[0]];
    }
  }

  lemma Prefix3(a: string, b: string, c: string, ks: seq<string>)
    ensures PartsPrefix([a, b, c], ks) <==> |ks| >= 3 && ks[0] == a && ks[1] == b && c <= ks[2]
  {
    if |ks| >= 3 {
      assert [a, b, c][..2] == [a, b] && ks[..2] == [ks[0], ks[1]];
    }
  }

  lemma Prefix4(a: string, b: string, c: string, d: string, ks: seq<string>)
    ensures PartsPrefix([a, b, c, d], ks) <==> |ks| >= 4 && ks[0] == a && ks[1] == b && ks[2] == c && d <= ks[3]
  {
    if |ks| >= 4 {
      assert [a, b, c, d][..3] == [a, b, c] && ks[..3] == [ks[0], ks[1], ks[2]];
    }
  }

  /** The prefix of one project administrator's sessions reaches those and nothing else: not the
      single-session key, not a user whose name extends it. */
  lemma PaSessionPrefixExact(user: string, n: Name)
    requires Lacks(user, '/') && Plain(n)
    ensures "sess/pa/" + user + "/" <= KeyOf(n) <==> n.PaSessionWith? && n.user == user
  {
    hide KeyOf, Plain, Join;
    Quad("sess", "pa", "sess/pa/", user, "");
    assert "sess/pa/" + user + "/" + "" == "sess/pa/" + user + "/";
    PrefixLacks("sess", "pa", user, "");
    PrefixReaches(["sess", "pa", user, ""], n);
    Prefix4("sess", "pa", user, "", Parts(n));
    assert "pa"[0] != "ga"[0];
  }

  lemma GaSessionPrefixExact(user: string, n: Name)
    requires Lacks(user, '/') && Plain(n)
    ensures "sess/ga/" + user + "/" <= KeyOf(n) <==> n.GaSessionWith? && n.user == user
  {
    hide KeyOf, Plain, Join;
    Quad("sess", "ga", "sess/ga/", user, "");
    assert "sess/ga/" + user + "/" + "" == "sess/ga/" + user + "/";
    PrefixLacks("sess", "ga", user, "");
    PrefixReaches(["sess", "ga", user, ""], n);
    Prefix4("sess", "ga", user, "", Parts(n));
    assert "pa"[0] != "ga"[0];
  }

  /** The prefix of the administrator's sessions reaches no other administrator's session, not the
      single-session key and not the password. */
  lemma AdminSessionPrefixExact(n: Name)
    requires Plain(n)
    ensures "sess/admin/" <= KeyOf(n) <==> n.SessionWith?
  {
    hide KeyOf, Plain, Join;
    Triple("sess", "admin", "sess/admin/", "");
    assert "sess/admin/" + "" == "sess/admin/";
    PrefixLacks("sess", "admin", "", "");
    PrefixReaches(["sess", "admin", ""], n);
    Prefix3("sess", "admin", "", Parts(n));
  }

  predicate BranchRow(n: Name) {
    n.BranchState? || n.Version? || n.Snapshot? || n.VersionDiff? || n.GraySnap?
  }

  predicate ProjectRow(n: Name) {
    n.Project? || n.Struct? || n.StructDraft? || BranchRow(n)
  }

  /** A branch's prefix reaches the rows of every branch of the project whose name extends it. */
  lemma BranchPrefixExact(id: string, branch: string, n: Name)
    requires Lacks(id, '/') && Lacks(branch, '/') && Plain(n)
    ensures BranchPrefix(id, branch) <= KeyOf(n) <==> BranchRow(n) && n.id == id && branch <= n.branch
  {
    hide KeyOf, Plain, Join, BranchPrefix, Decimal, Padded;
    BranchPrefixJoined(id, branch);
    PrefixLacks("p", id, "b", branch);
    PrefixReaches(["p", id, "b", branch], n);
    Prefix4("p", id, "b", branch, Parts(n));
  }

  /** A project's key, used as a prefix, reaches the rows of every project whose id extends it. */
  lemma ProjectPrefixExact(id: string, n: Name)
    requires Lacks(id, '/') && Plain(n)
    ensures KeyOf(Project(id)) <= KeyOf(n) <==> ProjectRow(n) && id <= n.id
  {
    hide Plain, Join, Decimal, Padded, KeyOf;
    KeyIsJoined(Project(id));
    PrefixLacks("p", id, "", "");
    PrefixReaches(["p", id], n);
    Prefix2("p", id, Parts(n));
  }

  /** The prefix the branch list is read with reaches exactly the project's branch rows. */
  lemma BranchListPrefixExact(id: string, n: Name)
    requires Lacks(id, '/') && Plain(n)
    ensures BranchPrefix(id, "") <= KeyOf(n) <==> BranchRow(n) && n.id == id
  {
    BranchPrefixExact(id, "", n);
  }

  // ---------------- deleting by prefix ----------------

  /** The rows that survive the deletion of everything under a prefix. */
  ghost function Spared(rows: set<Name>, prefix: string): set<Name> {
    set n | n in rows && !(prefix <= KeyOf(n))
  }

  /** Deleting a branch deletes exactly that branch's rows if and only if no other branch of the
      project with rows in the store has a name that extends its name. */
  lemma BranchDeleteIff(rows: set<Name>, id: string, branch: string)
    requires Lacks(id, '/') && Lacks(branch, '/') && forall n | n in rows :: Plain(n)
    ensures (forall n | n in rows :: n !in Spared(rows, BranchPrefix(id, branch)) <==> BranchRow(n) && n.id == id && n.branch == branch)
            <==> (forall n | n in rows && BranchRow(n) && n.id == id && branch <= n.branch :: n.branch == branch)
  {
    hide KeyOf, Plain, BranchPrefix;
    forall n | n in rows
      ensures n !in Spared(rows, BranchPrefix(id, branch)) <==> BranchRow(n) && n.id == id && branch <= n.branch
    {
      BranchPrefixExact(id, branch, n);
    }
  }

  /** Deleting a project deletes exactly its rows if and only if no other stored project's id extends
      its id. */
  lemma ProjectDeleteIff(rows: set<Name>, id: string)
    requires Lacks(id, '/') && forall n | n in rows :: Plain(n)
    ensures (forall n | n in rows :: n !in Spared(rows, KeyOf(Project(id))) <==> ProjectRow(n) && n.id == id)
            <==> (forall n | n in rows && ProjectRow(n) && id <= n.id :: n.id == id)
  {
    hide KeyOf, Plain;
    forall n | n in rows
      ensures n !in Spared(rows, KeyOf(Project(id))) <==> ProjectRow(n) && id <= n.id
    {
      ProjectPrefixExact(id, n);
    }
  }

  /** So deleting the branch `dev` takes the state of `dev-2` with it, published or not. */
  lemma DeletingDevTakesDev2(id: string)
    requires Lacks(id, '/')
    ensures BranchPrefix(id, "dev") <= KeyOf(BranchState(id, "dev-2"))
    ensures forall no :: BranchPrefix(id, "dev") <= KeyOf(Version(id, "dev-2", no))
  {
    BranchPrefixExact(id, "dev", BranchState(id, "dev-2"));
    forall no: nat
      ensures BranchPrefix(id, "dev") <= KeyOf(Version(id, "dev-2", no))
    {
      BranchPrefixExact(id, "dev", Version(id, "dev-2", no));
    }
  }

  // ---------------- audit entries ----------------

  const U64_LIMIT: nat := 0x1_0000_0000_0000_0000

  lemma PowerFive(k: nat)
    ensures Power(k + 5) == 100000 * Power(k)
  {
    assert Power(k + 5) == 10 * Power(k + 4);
    assert Power(k + 4) == 10 * Power(k + 3);
    assert Power(k + 3) == 10 * Power(k + 2);
    assert Power(k + 2) == 10 * Power(k + 1);
  }

  lemma U64Fits(n: nat)
    requires n < U64_LIMIT
    ensures |Padded(n, AUDIT_WIDTH)| == AUDIT_WIDTH
  {
    PowerFive(0);
    PowerFive(5);
    PowerFive(10);
    PowerFive(15);
    PaddedWidth(n, AUDIT_WIDTH);
  }

  /** Audit keys are all of one length, sort as their sequence numbers do, and sort before the
      counter that shares their prefix. */
  lemma AuditOrder(a: nat, b: nat)
    requires a < U64_LIMIT && b < U64_LIMIT
    ensures |KeyOf(Audit(a))| == |KeyOf(Audit(b))|
    ensures Below(KeyOf(Audit(a)), KeyOf(Audit(b))) <==> a < b
    ensures Below(KeyOf(Audit(a)), KeyOf(AuditCounter))
  {
    hide Padded, Below;
    U64Fits(a);
    U64Fits(b);
    PaddedValue(a, AUDIT_WIDTH);
    PaddedValue(b, AUDIT_WIDTH);
    BelowCommonPrefix("audit/", Padded(a, AUDIT_WIDTH), Padded(b, AUDIT_WIDTH));
    DigitOrder(Padded(a, AUDIT_WIDTH), Padded(b, AUDIT_WIDTH));
    BelowCommonPrefix("audit/", Padded(a, AUDIT_WIDTH), "seq");
    DigitBelowLetter(Padded(a, AUDIT_WIDTH), "seq");
    assert "audit/" + "seq" == "audit/seq";
  }

  lemma DigitBelowLetter(s: string, t: string)
    requires s != "" && Digits(s) && t != "" && '9' < t[0]
    ensures Below(s, t)
  {
    assert IsDigit(s[0]);
  }

  // ---------------- which rows the re-wrapping job finds ----------------

  lemma LastPart(n: Name, x: string)
    requires Plain(n) && Lacks(x, '/')
    ensures EndsWith(KeyOf(n), "/" + x) <==> |Parts(n)| >= 2 && Parts(n)[|Parts(n)| - 1] == x
  {
    hide KeyOf, Parts, Plain, EndsWith, Split;
    KeyParts(n);
    EndsWithPart(KeyOf(n), x, '/');
  }

  lemma InnerPart(n: Name, x: string)
    requires Plain(n) && Lacks(x, '/')
    ensures Contains(KeyOf(n), "/" + x + "/") <==> HasInner(Parts(n), x)
  {
    hide KeyOf, Parts, Plain, Contains, Split, HasInner;
    KeyParts(n);
    ContainsPart(KeyOf(n), x, '/');
  }

  /** The tests the scan makes on a key, in terms of its parts. */
  lemma ScanTests(n: Name)
    requires Plain(n)
    ensures EndsWith(KeyOf(n), "/snap") <==> |Parts(n)| >= 2 && Parts(n)[|Parts(n)| - 1] == "snap"
    ensures EndsWith(KeyOf(n), "/diff") <==> |Parts(n)| >= 2 && Parts(n)[|Parts(n)| - 1] == "diff"
    ensures EndsWith(KeyOf(n), "/state") <==> |Parts(n)| >= 2 && Parts(n)[|Parts(n)| - 1] == "state"
    ensures Contains(KeyOf(n), "/gray-snap/") <==> HasInner(Parts(n), "gray-snap")
  {
    hide KeyOf, Parts, Plain, EndsWith, Contains, HasInner;
    LastPart(n, "snap");
    LastPart(n, "diff");
    LastPart(n, "state");
    InnerPart(n, "gray-snap");
    assert "/" + "snap" == "/snap" && "/" + "diff" == "/diff" && "/" + "state" == "/state";
    assert "/" + "gray-snap" + "/" == "/gray-snap/";
  }

  /** Shared items are re-wrapped, except items named as the last part of a version row: their keys
      are taken for version rows and passed over. */
  lemma SharedCoveredIff(item: string, v: Value)
    requires Lacks(item, '/')
    ensures Covered(KeyOf(Shared(item)), SharedRow(v)) <==> item != "snap" && item != "diff"
    ensures Covered(KeyOf(SharedDraft(item)), SharedRow(v)) <==> item != "snap" && item != "diff"
  {
    hide EndsWith, Contains;
    ScanTests(Shared(item));
    ScanTests(SharedDraft(item));
  }

  lemma NotShared(n: Name)
    requires Plain(n) && BranchRow(n)
    ensures !("sh/" <= KeyOf(n)) && !("sh-draft/" <= KeyOf(n)) && "p/" <= KeyOf(n)
  {
    hide Join, Plain, Decimal, Padded, KeyOf;
    Pair2("sh", "sh/", "");
    Pair2("sh-draft", "sh-draft/", "");
    Pair2("p", "p/", "");
    assert "sh/" + "" == "sh/" && "sh-draft/" + "" == "sh-draft/" && "p/" + "" == "p/";
    PrefixLacks("sh", "", "", "");
    PrefixLacks("sh-draft", "", "", "");
    PrefixLacks("p", "", "", "");
    PrefixReaches(["sh", ""], n);
    PrefixReaches(["sh-draft", ""], n);
    PrefixReaches(["p", ""], n);
    Prefix2("sh", "", Parts(n));
    Prefix2("sh-draft", "", Parts(n));
    Prefix2("p", "", Parts(n));
  }

  /** Checkpoints, version diffs and gray snapshots are always re-wrapped. */
  lemma VersionRowsCovered(id: string, b: string, no: nat, snap: SnapshotMap, diff: seq<DiffEntry>)
    requires Lacks(id, '/') && Lacks(b, '/')
    ensures Covered(KeyOf(Snapshot(id, b, no)), SnapRow(snap))
    ensures Covered(KeyOf(VersionDiff(id, b, no)), DiffRow(diff))
    ensures Covered(KeyOf(GraySnap(id, b, no)), SnapRow(snap))
  {
    hide EndsWith, Contains, Decimal, KeyOf, HasInner;
    ScanTests(Snapshot(id, b, no));
    ScanTests(VersionDiff(id, b, no));
    ScanTests(GraySnap(id, b, no));
    NotShared(GraySnap(id, b, no));
    DecimalValue(no);
    assert "snap"[0] != "diff"[0] && !IsDigit("snap"[0]) && !IsDigit("diff"[0]);
    InnerAt(Parts(GraySnap(id, b, no)), 4);
  }

  lemma InnerAt(parts: seq<string>, i: nat)
    requires 1 <= i < |parts| - 1
    ensures HasInner(parts, parts[i])
  {
  }

  lemma FiveInner(a: string, id: string, c: string, b: string, e: string, x: string)
    ensures HasInner([a, id, c, b, e], x) <==> id == x || c == x || b == x
  {
    var parts := [a, id, c, b, e];
    assert parts[1] == id && parts[2] == c && parts[3] == b;
  }

  lemma DraftTail(id: string, b: string)
    requires Lacks(id, '/') && Lacks(b, '/')
    ensures |KeyOf(BranchState(id, b))| >= 2
    ensures Contains(KeyOf(BranchState(id, b))[2..], "/b/")
  {
    hide Contains, Join, Split;
    var key := KeyOf(BranchState(id, b));
    KeyIsJoined(BranchState(id, b));
    var parts := ["p", id, "b", b, "state"];
    var tail := [id, "b", b, "state"];
    assert parts[1..] == tail;
    JoinCons(parts);
    assert key == "p/" + Join(tail, '/');
    assert key[2..] == Join(tail, '/');
    assert AllLack(tail, '/');
    SplitJoin(tail, '/');
    ContainsPart(key[2..], "b", '/');
    assert "/" + "b" + "/" == "/b/";
    InnerAt(tail, 1);
  }

  lemma JoinCons(parts: seq<string>)
    requires |parts| >= 2
    ensures Join(parts, '/') == parts[0] + "/" + Join(parts[1..], '/')
  {
  }

  /** The drafts of a branch are re-wrapped unless the branch or its project is named `gray-snap`:
      then their key is taken for a gray snapshot's and passed over. */
  lemma DraftCoveredIff(id: string, b: string, draft: SnapshotMap)
    requires Lacks(id, '/') && Lacks(b, '/')
    ensures Covered(KeyOf(BranchState(id, b)), StateRow(draft)) <==> id != "gray-snap" && b != "gray-snap"
  {
    hide EndsWith, Contains, KeyOf, HasInner;
    ScanTests(BranchState(id, b));
    NotShared(BranchState(id, b));
    DraftTail(id, b);
    FiveInner("p", id, "b", b, "state", "gray-snap");
  }
}
