/** Strings cut at a separator, trimmed, and read as decimal numbers. */
module Text {
  import opened Model
  import opened Order

  // ---------------- splitting and joining ----------------

  predicate Lacks(s: string, c: char) {
    c !in s
  }

  predicate AllLack(parts: seq<string>, c: char) {
    forall i | 0 <= i < |parts| :: Lacks(parts[i], c)
  }

  function Split(s: string, c: char): (parts: seq<string>)
    ensures parts != []
  {
    if s == "" then [""]
    else
      var rest := Split(s[1..], c);
      if s[0] == c then [""] + rest else [[s[0]] + rest[0]] + rest[1..]
  }

  function Join(parts: seq<string>, c: char): (s: string) {
    if parts == [] then ""
    else if |parts| == 1 then parts[0]
    else parts[0] + [c] + Join(parts[1..], c)
  }

  lemma {:induction false} SplitLacks(s: string, c: char)
    ensures AllLack(Split(s, c), c)
  {
    if s != "" {
      SplitLacks(s[1..], c);
    }
  }

  lemma {:induction false} JoinSplit(s: string, c: char)
    ensures Join(Split(s, c), c) == s
  {
    if s != "" {
      JoinSplit(s[1..], c);
      var rest := Split(s[1..], c);
      assert s == [s[0]] + s[1..];
      if s[0] == c {
        assert ([""] + rest)[1..] == rest;
      } else {
        var first := [s[0]] + rest[0];
        assert ([first] + rest[1..])[1..] == rest[1..];
        if |rest| > 1 {
          assert first + [c] + Join(rest[1..], c) == [s[0]] + (rest[0] + [c] + Join(rest[1..], c));
        }
      }
    }
  }

  /** A part without the separator, followed by the separator, is the first part cut off. */
  lemma {:induction false} SplitAfter(part: string, rest: string, c: char)
    requires Lacks(part, c)
    ensures Split(part + [c] + rest, c) == [part] + Split(rest, c)
    ensures Split(part, c) == [part]
  {
    if part == "" {
      assert (part + [c] + rest)[1..] == rest;
    } else {
      assert Lacks(part[1..], c);
      SplitAfter(part[1..], rest, c);
      assert (part + [c] + rest)[1..] == part[1..] + [c] + rest;
      assert part == [part[0]] + part[1..];
    }
  }

  /** Text joined by the separator is cut into the parts of both. */
  lemma {:induction false} SplitAppend(a: string, b: string, c: char)
    ensures Split(a + [c] + b, c) == Split(a, c) + Split(b, c)
  {
    var s := a + [c] + b;
    SplitStep(s, c);
    if a == "" {
      assert s[1..] == b;
    } else {
      hide Split;
      SplitAppend(a[1..], b, c);
      SplitStep(a, c);
      assert s[1..] == a[1..] + [c] + b && s[0] == a[0];
      GrownAppend(a[0], Split(a[1..], c), Split(b, c), c);
    }
  }

  lemma GrownAppend(x: char, ps: seq<string>, qs: seq<string>, c: char)
    requires ps != []
    ensures Grown(x, ps + qs, c) == Grown(x, ps, c) + qs
  {
    assert (ps + qs)[1..] == ps[1..] + qs;
  }

  lemma {:induction false} SplitJoin(parts: seq<string>, c: char)
    requires parts != [] && AllLack(parts, c)
    ensures Split(Join(parts, c), c) == parts
  {
    if |parts| == 1 {
      SplitAfter(parts[0], "", c);
    } else {
      assert AllLack(parts[1..], c) by {
        forall i | 0 <= i < |parts[1..]|
          ensures Lacks(parts[1..][i], c)
        {
          assert Lacks(parts[i + 1], c);
        }
      }
      SplitJoin(parts[1..], c);
      SplitAfter(parts[0], Join(parts[1..], c), c);
    }
  }

  lemma SplitStep(s: string, c: char)
    requires s != ""
    ensures Split(s, c) == var rest := Split(s[1..], c);
                           if s[0] == c then [""] + rest else [[s[0]] + rest[0]] + rest[1..]
  {
  }

  /** Cut text starts with cut text: all but the last part agree, and the last is a prefix. */
  predicate PartsPrefix(ps: seq<string>, ks: seq<string>)
    requires ps != []
  {
    && |ps| <= |ks|
    && ps[..|ps| - 1] == ks[..|ps| - 1]
    && ps[|ps| - 1] <= ks[|ps| - 1]
  }

  lemma {:induction false} PrefixParts(p: string, s: string, c: char)
    ensures p <= s <==> PartsPrefix(Split(p, c), Split(s, c))
  {
    if p == "" {
    } else if s == "" {
      PrefixNonEmpty(p, c);
    } else {
      hide Split;
      PrefixParts(p[1..], s[1..], c);
      SplitStep(p, c);
      SplitStep(s, c);
      assert p <= s <==> p[0] == s[0] && p[1..] <= s[1..];
      PartsPrefixStep(p[0], s[0], Split(p[1..], c), Split(s[1..], c), c);
    }
  }

  lemma PrefixNonEmpty(p: string, c: char)
    requires p != ""
    ensures !PartsPrefix(Split(p, c), [""])
  {
  }

  /** Adding a character in front of cut text. */
  function Grown(x: char, parts: seq<string>, c: char): seq<string>
    requires parts != []
  {
    if x == c then [""] + parts else [[x] + parts[0]] + parts[1..]
  }

  lemma PartsPrefixStep(x: char, y: char, ps: seq<string>, ks: seq<string>, c: char)
    requires ps != [] && ks != []
    ensures PartsPrefix(Grown(x, ps, c), Grown(y, ks, c)) <==> x == y && PartsPrefix(ps, ks)
  {
    var n := |ps|;
    var gp, gk := Grown(x, ps, c), Grown(y, ks, c);
    if x == c && y == c {
      assert |ps| <= |ks| ==> gp[..n] == [""] + ps[..n - 1] && gk[..n] == [""] + ks[..n - 1];
      if |ps| <= |ks| && gp[..n] == gk[..n] {
        assert ps[..n - 1] == gp[..n][1..] == gk[..n][1..] == ks[..n - 1];
      }
    } else if x != c && y != c {
      PartsPrefixFirst(x, y, ps, ks);
    } else if x == c {
      assert gp[0] == "" && gk[0] != "" && |gp| > 1;
      assert |gp| <= |gk| ==> gp[..n][0] != gk[..n][0];
    } else {
      assert gp[0] != "" && gk[0] == "";
      if n > 1 && |gp| <= |gk| {
        assert gp[..n - 1][0] != gk[..n - 1][0];
      }
    }
  }

  lemma PartsPrefixFirst(x: char, y: char, ps: seq<string>, ks: seq<string>)
    requires ps != [] && ks != []
    ensures PartsPrefix([[x] + ps[0]] + ps[1..], [[y] + ks[0]] + ks[1..]) <==> x == y && PartsPrefix(ps, ks)
  {
    var n := |ps|;
    var gp, gk := [[x] + ps[0]] + ps[1..], [[y] + ks[0]] + ks[1..];
    if |ps| <= |ks| {
      if n == 1 {
        assert gp[0] <= gk[0] <==> x == y && ps[0] <= ks[0] by {
          assert gp[0][0] == x && gk[0][0] == y && gp[0][1..] == ps[0] && gk[0][1..] == ks[0];
          assert x == y && ps[0] <= ks[0] ==> gp[0] == [x] + ps[0] && gk[0] == [x] + ks[0];
        }
      } else {
        assert gp[n - 1] == ps[n - 1] && gk[n - 1] == ks[n - 1];
        assert gp[0] == gk[0] <==> x == y && ps[0] == ks[0] by {
          assert gp[0][0] == x && gk[0][0] == y && gp[0][1..] == ps[0] && gk[0][1..] == ks[0];
        }
        if gp[..n - 1] == gk[..n - 1] {
          assert gp[..n - 1][0] == gk[..n - 1][0];
          forall i | 0 <= i < n - 1
            ensures ps[i] == ks[i]
          {
            assert gp[..n - 1][i] == gk[..n - 1][i];
          }
        }
        if x == y && ps[..n - 1] == ks[..n - 1] {
          assert ps[..n - 1][0] == ks[..n - 1][0];
          forall i | 0 <= i < n - 1
            ensures gp[i] == gk[i]
          {
            assert ps[..n - 1][i] == ks[..n - 1][i];
          }
        }
      }
    }
  }

  predicate EndsWith(s: string, t: string) {
    |t| <= |s| && s[|s| - |t|..] == t
  }

  predicate Contains(s: string, t: string) {
    t <= s || (s != [] && Contains(s[1..], t))
  }

  /** `s` ends with the separator and `x` exactly when `x` is the last of at least two parts. */
  lemma {:induction false} EndsWithPart(s: string, x: string, c: char)
    requires Lacks(x, c)
    ensures EndsWith(s, [c] + x) <==> |Split(s, c)| >= 2 && Split(s, c)[|Split(s, c)| - 1] == x
  {
    if s != "" {
      EndsWithPart(s[1..], x, c);
      var t := [c] + x;
      var rest := Split(s[1..], c);
      assert |t| < |s| ==> s[|s| - |t|..] == s[1..][|s| - 1 - |t|..];
      assert |t| == |s| ==> s[0..] == s;
      assert EndsWith(s, t) <==> s == t || EndsWith(s[1..], t);
      assert s == t <==> s[0] == c && s[1..] == x by {
        assert s == [s[0]] + s[1..];
      }
      JoinSplit(s[1..], c);
      if |rest| == 1 {
        assert s[1..] == rest[0];
      } else if s[0] == c && s[1..] == x {
        SplitAfter(x, "", c);
        assert false;
      }
    }
  }

  ghost predicate HasInner(parts: seq<string>, x: string) {
    exists i :: 1 <= i < |parts| - 1 && parts[i] == x
  }

  lemma {:induction false} StartsWithPart(s: string, x: string, c: char)
    requires Lacks(x, c)
    ensures x + [c] <= s <==> |Split(s, c)| >= 2 && Split(s, c)[0] == x
  {
    if s != "" {
      if x == "" {
        if s[0] == c {
          assert Split(s, c)[0] == "";
        }
      } else {
        assert Lacks(x[1..], c);
        StartsWithPart(s[1..], x[1..], c);
        assert x == [x[0]] + x[1..] && s == [s[0]] + s[1..];
        assert x + [c] == [x[0]] + (x[1..] + [c]);
        assert x + [c] <= s <==> x[0] == s[0] && x[1..] + [c] <= s[1..];
        var rest := Split(s[1..], c);
        if s[0] != c {
          var f := [s[0]] + rest[0];
          assert f == x <==> s[0] == x[0] && rest[0] == x[1..] by {
            assert f[0] == s[0] && f[1..] == rest[0];
          }
        }
      }
    }
  }

  /** A whole part between two separators, seen as text. */
  lemma {:induction false} ContainsPart(s: string, x: string, c: char)
    requires Lacks(x, c)
    ensures Contains(s, [c] + x + [c]) <==> HasInner(Split(s, c), x)
  {
    var t := [c] + x + [c];
    if s != "" {
      ContainsPart(s[1..], x, c);
      StartsWithPart(s[1..], x, c);
      var rest := Split(s[1..], c);
      var parts := Split(s, c);
      assert s == [s[0]] + s[1..] && t == [c] + (x + [c]);
      assert t <= s <==> s[0] == c && x + [c] <= s[1..];
      if s[0] == c {
        assert parts == [""] + rest;
        InnerCons(rest, x);
      } else {
        assert parts[1..] == rest[1..] && |parts| == |rest|;
        assert forall i | 1 <= i < |rest| :: parts[i] == rest[i];
      }
    }
  }

  lemma InnerCons(rest: seq<string>, x: string)
    requires rest != []
    ensures HasInner([""] + rest, x) <==> (|rest| >= 2 && rest[0] == x) || HasInner(rest, x)
  {
    var parts := [""] + rest;
    if |rest| >= 2 && rest[0] == x {
      assert parts[1] == x;
    }
    if HasInner(rest, x) {
      var i :| 1 <= i < |rest| - 1 && rest[i] == x;
      assert parts[i + 1] == x;
    }
    if HasInner(parts, x) {
      var i :| 1 <= i < |parts| - 1 && parts[i] == x;
      assert rest[i - 1] == x;
    }
  }

  // ---------------- white space ----------------

  /** Unicode white space. */
  predicate IsSpace(c: char) {
    || c == ' ' || '\t' <= c <= '\r' || c == '\U{0085}' || c == '\U{00A0}' || c == '\U{1680}'
    || '\U{2000}' <= c <= '\U{200A}' || c == '\U{2028}' || c == '\U{2029}' || c == '\U{202F}'
    || c == '\U{205F}' || c == '\U{3000}'
  }

  predicate Trimmed(s: string) {
    s != "" ==> !IsSpace(s[0]) && !IsSpace(s[|s| - 1])
  }

  function Trim(s: string): (r: string)
    ensures Trimmed(r)
    ensures Trimmed(s) ==> r == s
    ensures forall c | c in r :: c in s
  {
    if s == "" then ""
    else if IsSpace(s[0]) then Trim(s[1..])
    else if IsSpace(s[|s| - 1]) then Trim(s[..|s| - 1])
    else s
  }

  // ---------------- decimal numbers ----------------

  predicate IsDigit(c: char) {
    '0' <= c <= '9'
  }

  predicate Digits(s: string) {
    forall i | 0 <= i < |s| :: IsDigit(s[i])
  }

  function DigitChar(d: nat): (c: char)
    requires d < 10
    ensures IsDigit(c) && c as int - '0' as int == d
  {
    '0' + d as char
  }

  function Decimal(n: nat): (s: string) {
    if n < 10 then [DigitChar(n)] else Decimal(n / 10) + [DigitChar(n % 10)]
  }

  function ValueOf(s: string): (n: nat)
    requires Digits(s)
  {
    if s == "" then 0 else 10 * ValueOf(s[..|s| - 1]) + (s[|s| - 1] as int - '0' as int)
  }

  lemma {:induction false} DecimalValue(n: nat)
    ensures Decimal(n) != "" && Digits(Decimal(n)) && ValueOf(Decimal(n)) == n
  {
    if n >= 10 {
      DecimalValue(n / 10);
      assert Decimal(n)[..|Decimal(n)| - 1] == Decimal(n / 10);
    } else {
      assert Decimal(n)[..0] == "";
    }
  }

  lemma DigitsLack(s: string, c: char)
    requires Digits(s) && !IsDigit(c)
    ensures Lacks(s, c)
  {
  }

  /** Reading an unsigned number: an optional `+`, at least one digit, nothing else, in range. */
  function ParseUint(s: string, limit: nat): (r: Option<nat>) {
    var t := if s != "" && s[0] == '+' then s[1..] else s;
    if t == "" || !Digits(t) || ValueOf(t) >= limit then None else Some(ValueOf(t))
  }

  lemma ParsePrinted(n: nat, limit: nat)
    ensures ParseUint(Decimal(n), limit) == if n < limit then Some(n) else None
  {
    DecimalValue(n);
    assert IsDigit(Decimal(n)[0]);
  }

  function Zeros(n: nat): (s: string)
    ensures |s| == n && forall i | 0 <= i < n :: s[i] == '0'
  {
    seq(n, _ => '0')
  }

  /** Zero-padded to a width; longer numbers keep all their digits. */
  function Padded(n: nat, width: nat): (s: string) {
    var s := Decimal(n);
    if |s| < width then Zeros(width - |s|) + s else s
  }

  lemma {:induction false} ZerosValue(z: nat, s: string)
    requires Digits(s)
    ensures Digits(Zeros(z) + s) && ValueOf(Zeros(z) + s) == ValueOf(s)
    decreases |s|, z
  {
    if s != "" {
      ZerosValue(z, s[..|s| - 1]);
      assert (Zeros(z) + s)[..z + |s| - 1] == Zeros(z) + s[..|s| - 1];
    } else if z > 0 {
      ZerosValue(z - 1, s);
      assert (Zeros(z) + s)[..z - 1] == Zeros(z - 1) + s;
    }
  }

  lemma PaddedValue(n: nat, width: nat)
    ensures Padded(n, width) != "" && Digits(Padded(n, width)) && ValueOf(Padded(n, width)) == n
  {
    DecimalValue(n);
    var s := Decimal(n);
    if |s| < width {
      ZerosValue(width - |s|, s);
    }
  }

  function Power(k: nat): (p: nat)
    ensures p >= 1
  {
    if k == 0 then 1 else 10 * Power(k - 1)
  }

  lemma {:induction false} DecimalWidth(n: nat, k: nat)
    requires n < Power(k) && k > 0
    ensures |Decimal(n)| <= k
    decreases k
  {
    if n >= 10 {
      assert k > 1;
      DecimalWidth(n / 10, k - 1);
    }
  }

  lemma PaddedWidth(n: nat, width: nat)
    requires n < Power(width) && width > 0
    ensures |Padded(n, width)| == width
  {
    DecimalWidth(n, width);
  }

  /** Among digit strings of one length, text order is number order. */
  lemma {:induction false} DigitOrder(a: string, b: string)
    requires Digits(a) && Digits(b) && |a| == |b|
    ensures Below(a, b) <==> ValueOf(a) < ValueOf(b)
    ensures a == b <==> ValueOf(a) == ValueOf(b)
  {
    if a != "" {
      var n := |a| - 1;
      DigitOrder(a[..n], b[..n]);
      BelowAppend(a[..n], b[..n], a[n], b[n]);
      assert a == a[..n] + [a[n]] && b == b[..n] + [b[n]];
    }
  }

  lemma {:induction false} BelowCommonPrefix(p: string, a: string, b: string)
    ensures Below(p + a, p + b) <==> Below(a, b)
  {
    if p == "" {
      assert p + a == a && p + b == b;
    } else {
      BelowCommonPrefix(p[1..], a, b);
      assert (p + a)[1..] == p[1..] + a && (p + b)[1..] == p[1..] + b;
    }
  }
}
