/** Lexicographic order on keys, and the ascending key sequence a `BTreeMap` is iterated in.
    Keys are byte strings in the program; here each byte is a character, so the order on
    `string` is the byte order (UTF-8 byte order and code point order coincide). */
module Order {

  /** Strict lexicographic order. */
  predicate Below(a: string, b: string) {
    b != [] && (a == [] || a[0] < b[0] || (a[0] == b[0] && Below(a[1..], b[1..])))
  }

  predicate AtMost(a: string, b: string) {
    a == b || Below(a, b)
  }

  lemma {:induction false} BelowAsymmetric(a: string, b: string)
    requires Below(a, b)
    ensures a != b && !Below(b, a)
  {
    if a != [] && a[0] == b[0] {
      BelowAsymmetric(a[1..], b[1..]);
    }
  }

  lemma {:induction false} BelowTransitive(a: string, b: string, c: string)
    requires Below(a, b) && Below(b, c)
    ensures Below(a, c)
  {
    if a != [] && a[0] == b[0] == c[0] {
      BelowTransitive(a[1..], b[1..], c[1..]);
    }
  }

  lemma {:induction false} BelowTotal(a: string, b: string)
    ensures a == b || Below(a, b) || Below(b, a)
  {
    if a == [] || b == [] || a[0] != b[0] {
    } else {
      BelowTotal(a[1..], b[1..]);
      assert a == [a[0]] + a[1..] && b == [b[0]] + b[1..];
    }
  }

  /** Appending does not disturb an order already decided, and decides between equals. */
  lemma {:induction false} BelowAppend(x: string, y: string, c: char, d: char)
    requires |x| == |y|
    ensures Below(x + [c], y + [d]) <==> Below(x, y) || (x == y && c < d)
  {
    if x == [] {
      assert x + [c] == [c] && y + [d] == [d];
      assert [c][1..] == [] && [d][1..] == [];
    } else {
      assert (x + [c])[1..] == x[1..] + [c] && (y + [d])[1..] == y[1..] + [d];
      BelowAppend(x[1..], y[1..], c, d);
      assert x == [x[0]] + x[1..] && y == [y[0]] + y[1..];
    }
  }

  /** The keys with a given prefix are contiguous: nothing between a prefix and a key that
      starts with it fails to start with it. */
  lemma {:induction false} PrefixContiguous(p: string, j: string, k: string)
    requires AtMost(p, j) && AtMost(j, k) && p <= k
    ensures p <= j
  {
    if p != [] && j != k {
      if p == j {
      } else if j[0] != p[0] {
        assert false;
      } else {
        assert p[1..] <= k[1..];
        assert p == [p[0]] + p[1..] && j == [j[0]] + j[1..] && k == [k[0]] + k[1..];
        PrefixContiguous(p[1..], j[1..], k[1..]);
      }
    }
  }

  lemma {:induction false} PrefixAtMost(p: string, k: string)
    requires p <= k
    ensures AtMost(p, k)
  {
    if p != [] {
      assert p[1..] <= k[1..];
      assert p == [p[0]] + p[1..] && k == [k[0]] + k[1..];
      PrefixAtMost(p[1..], k[1..]);
    }
  }

  predicate IsLeast(m: string, s: set<string>) {
    m in s && forall x | x in s :: AtMost(m, x)
  }

  lemma {:induction false} LeastExists(s: set<string>)
    requires s != {}
    ensures exists m :: IsLeast(m, s)
  {
    var x :| x in s;
    if s == {x} {
      assert IsLeast(x, s);
    } else {
      var rest := s - {x};
      LeastExists(rest);
      var m :| IsLeast(m, rest);
      BelowTotal(m, x);
      var least := if Below(m, x) then m else x;
      forall y | y in s
        ensures AtMost(least, y)
      {
        if y != x {
          assert y in rest;
          if least == x && x != m && y != m {
            BelowTransitive(x, m, y);
          }
        }
      }
      assert IsLeast(least, s);
    }
  }

  lemma LeastUnique(s: set<string>)
    ensures forall a, b | IsLeast(a, s) && IsLeast(b, s) :: a == b
  {
    forall a, b | IsLeast(a, s) && IsLeast(b, s)
      ensures a == b
    {
      if a != b {
        BelowAsymmetric(a, b);
      }
    }
  }

  function Least(s: set<string>): (m: string)
    requires s != {}
    ensures IsLeast(m, s)
  {
    LeastExists(s);
    LeastUnique(s);
    var m :| IsLeast(m, s);
    m
  }

  predicate Ascending(ks: seq<string>) {
    forall i, j {:trigger Below(ks[i], ks[j])} | 0 <= i < j < |ks| :: Below(ks[i], ks[j])
  }

  /** `ks` holds the elements of `s`, each once, ascending. */
  ghost predicate Lists(ks: seq<string>, s: set<string>) {
    Ascending(ks) && (forall k :: k in ks <==> k in s) && |ks| == |s|
  }

  lemma {:induction false} ListExists(s: set<string>)
    ensures exists ks :: Lists(ks, s)
  {
    if s == {} {
      assert Lists([], s);
    } else {
      var m := Least(s);
      ListExists(s - {m});
      var rest :| Lists(rest, s - {m});
      assert forall i | 0 <= i < |rest| :: rest[i] in s - {m} && Below(m, rest[i]);
      assert Lists([m] + rest, s);
    }
  }

  /** The order in which an ordered map or set is iterated. */
  ghost function Sorted(s: set<string>): (ks: seq<string>)
    ensures Lists(ks, s)
  {
    ListExists(s);
    var ks :| Lists(ks, s);
    ks
  }

  lemma SortedUnique(ks: seq<string>, s: set<string>)
    requires Ascending(ks) && forall k :: k in ks <==> k in s
    ensures ks == Sorted(s)
  {
    AscendingUnique(ks, Sorted(s));
  }

  /** Iterating an ordered map: take the least remaining key until none is left. */
  method KeysInOrder(s: set<string>) returns (ks: seq<string>)
    ensures ks == Sorted(s)
  {
    ks := [];
    var todo := s;
    while todo != {}
      invariant todo <= s && Ascending(ks)
      invariant forall k :: k in ks <==> k in s - todo
      invariant forall i, k {:trigger Below(ks[i], k)} | 0 <= i < |ks| && k in todo :: Below(ks[i], k)
    {
      var k := Least(todo);
      forall i, x | 0 <= i < |ks + [k]| && x in todo - {k}
        ensures Below((ks + [k])[i], x)
      {
        if i < |ks| {
          assert Below(ks[i], x);
        }
      }
      forall i, j | 0 <= i < j < |ks + [k]|
        ensures Below((ks + [k])[i], (ks + [k])[j])
      {
        if j < |ks| {
          assert Below(ks[i], ks[j]);
        } else {
          assert Below(ks[i], k);
        }
      }
      ks := ks + [k];
      todo := todo - {k};
    }
    SortedUnique(ks, s);
  }

  lemma AscendingDistinct(ks: seq<string>, i: int, j: int)
    requires Ascending(ks) && 0 <= i < |ks| && 0 <= j < |ks| && ks[i] == ks[j]
    ensures i == j
  {
    if i < j {
      BelowAsymmetric(ks[i], ks[j]);
    } else if j < i {
      BelowAsymmetric(ks[j], ks[i]);
    }
  }

  lemma HasElement(ks: seq<string>)
    requires ks != []
    ensures exists k :: k in ks
  {
    assert ks[0] in ks;
  }

  /** An ascending sequence is determined by its elements. */
  lemma {:induction false} AscendingUnique(a: seq<string>, b: seq<string>)
    requires Ascending(a) && Ascending(b)
    requires forall k :: k in a <==> k in b
    ensures a == b
  {
    if a == [] {
      if b != [] {
        HasElement(b);
      }
    } else {
      assert a[0] in a && a[0] in b;
      assert b[0] in b && b[0] in a;
      if a[0] != b[0] {
        BelowAsymmetric(a[0], b[0]);
      }
      forall k
        ensures k in a[1..] <==> k in b[1..]
      {
        if k in a[1..] {
          var i :| 1 <= i < |a| && a[i] == k;
          BelowAsymmetric(a[0], a[i]);
          assert k in b;
        }
        if k in b[1..] {
          var i :| 1 <= i < |b| && b[i] == k;
          BelowAsymmetric(b[0], b[i]);
          assert k in a;
        }
      }
      AscendingUnique(a[1..], b[1..]);
      assert a == [a[0]] + a[1..] && b == [b[0]] + b[1..];
    }
  }

  // ---------------- numbers ----------------

  ghost predicate Increasing(ns: seq<nat>) {
    forall i, j | 0 <= i < j < |ns| :: ns[i] < ns[j]
  }

  ghost predicate ListsNats(ns: seq<nat>, s: set<nat>) {
    Increasing(ns) && (forall n :: n in ns <==> n in s) && |ns| == |s|
  }

  ghost predicate IsGreatest(m: nat, s: set<nat>) {
    m in s && forall n | n in s :: n <= m
  }

  lemma {:induction false} GreatestExists(s: set<nat>)
    requires s != {}
    ensures exists m :: IsGreatest(m, s)
  {
    var x :| x in s;
    var rest := s - {x};
    if rest == {} {
      assert s == {x};
      assert IsGreatest(x, s);
    } else {
      GreatestExists(rest);
      var m :| IsGreatest(m, rest);
      var g := if x < m then m else x;
      forall n | n in s
        ensures n <= g
      {
        if n != x {
          assert n in rest;
        }
      }
      assert IsGreatest(g, s);
    }
  }

  lemma {:induction false} NatListExists(s: set<nat>)
    ensures exists ns :: ListsNats(ns, s)
  {
    if s == {} {
      assert ListsNats([], s);
    } else {
      GreatestExists(s);
      var m :| IsGreatest(m, s);
      NatListExists(s - {m});
      var front :| ListsNats(front, s - {m});
      forall i | 0 <= i < |front|
        ensures front[i] < m
      {
        assert front[i] in front;
      }
      assert ListsNats(front + [m], s);
    }
  }

  /** The numbers of a set, ascending. */
  ghost function SortedNats(s: set<nat>): (ns: seq<nat>)
    ensures ListsNats(ns, s)
  {
    NatListExists(s);
    var ns :| ListsNats(ns, s);
    ns
  }

  lemma {:induction false} IncreasingUnique(a: seq<nat>, b: seq<nat>)
    requires Increasing(a) && Increasing(b) && |a| == |b|
    requires forall n :: n in a <==> n in b
    ensures a == b
  {
    if a != [] {
      var i := |a| - 1;
      var x, y := a[i], b[i];
      assert x in b && y in a;
      assert a[i] == b[i];
      forall n
        ensures n in a[..i] <==> n in b[..i]
      {
        assert n in a <==> n in a[..i] || n == x;
        assert n in b <==> n in b[..i] || n == y;
      }
      IncreasingUnique(a[..i], b[..i]);
    }
  }

  /** Sorting the version numbers of a history. */
  method NatsInOrder(s: set<nat>) returns (ns: seq<nat>)
    ensures ns == SortedNats(s)
  {
    ns := [];
    var todo := s;
    while todo != {}
      invariant todo <= s && Increasing(ns) && |ns| + |todo| == |s|
      invariant forall n :: n in ns <==> n in s - todo
      invariant forall i, n | 0 <= i < |ns| && n in todo :: ns[i] < n
    {
      var m := LeastNat(todo);
      assert forall n | n in todo - {m} :: m < n;
      ns := ns + [m];
      todo := todo - {m};
    }
    IncreasingUnique(ns, SortedNats(s));
  }

  method LeastNat(s: set<nat>) returns (m: nat)
    requires s != {}
    ensures m in s && forall n | n in s :: m <= n
  {
    m :| m in s;
    var rest := s - {m};
    while rest != {}
      invariant rest <= s && m in s
      invariant forall n | n in s && n !in rest :: m <= n
    {
      var n :| n in rest;
      if n < m {
        m := n;
      }
      rest := rest - {n};
    }
  }
}
