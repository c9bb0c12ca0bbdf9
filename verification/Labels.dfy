/** The label header: printed by the three SDKs in some key order, parsed by the server. */
module Labels {
  import opened Model
  import opened Order
  import opened Text

  type LabelMap = map<string, string>

  // ---------------- header text ----------------

  /** What a header value may hold to be read as text at all: visible ASCII, blank and tab. */
  predicate IsVisible(c: char) {
    c == '\t' || ' ' <= c <= '~'
  }

  predicate Visible(s: string) {
    forall i | 0 <= i < |s| :: IsVisible(s[i])
  }

  /** Cut at the first separator. */
  function SplitOnce(s: string, c: char): (r: Option<(string, string)>)
    ensures r.None? <==> Lacks(s, c)
    ensures r.Some? ==> Lacks(r.value.0, c) && s == r.value.0 + [c] + r.value.1
  {
    if s == "" then None
    else if s[0] == c then Some(("", s[1..]))
    else
      match SplitOnce(s[1..], c)
      case None => None
      case Some((a, b)) => Some(([s[0]] + a, b))
  }

  lemma {:induction false} SplitOnceFirst(a: string, b: string, c: char)
    requires Lacks(a, c)
    ensures SplitOnce(a + [c] + b, c) == Some((a, b))
  {
    if a == "" {
      assert (a + [c] + b)[1..] == b;
    } else {
      assert Lacks(a[1..], c);
      SplitOnceFirst(a[1..], b, c);
      var s := a + [c] + b;
      assert s[1..] == a[1..] + [c] + b && s[0] == a[0] && a[0] in a;
      assert a == [a[0]] + a[1..];
    }
  }

  // ---------------- parsing ----------------

  /** One segment: skipped when empty, without `=`, or with an empty key; a later key wins. */
  function AddPair(m: LabelMap, segment: string): (r: LabelMap) {
    match SplitOnce(Trim(segment), '=')
    case None => m
    case Some((k, v)) => if Trim(k) == "" then m else m[Trim(k) := Trim(v)]
  }

  function AddPairs(segments: seq<string>): (r: LabelMap) {
    if segments == [] then map[] else AddPair(AddPairs(segments[..|segments| - 1]), segments[|segments| - 1])
  }

  /** The labels a request carries: none without the header or if it is not text. */
  function Parsed(header: Option<string>): (r: LabelMap) {
    if header.None? || !Visible(header.value) then map[] else AddPairs(Split(header.value, ','))
  }

  method ClientLabels(header: Option<string>) returns (labels: LabelMap)
    ensures labels == Parsed(header)
  {
    labels := map[];
    if header.None? || !Visible(header.value) {
      return;
    }
    var segments := Split(header.value, ',');
    for i := 0 to |segments|
      invariant labels == AddPairs(segments[..i])
    {
      assert segments[..i + 1][..i] == segments[..i];
      var pair := Trim(segments[i]);
      if pair == "" {
        continue;
      }
      var kv := SplitOnce(pair, '=');
      if kv.Some? {
        var (k, v) := kv.value;
        if Trim(k) != "" {
          labels := labels[Trim(k) := Trim(v)];
        }
      }
    }
    assert segments[..|segments|] == segments;
  }

  // ---------------- printing ----------------

  function PairText(labels: LabelMap, k: string): string
    requires k in labels
  {
    k + "=" + labels[k]
  }

  function PairTexts(labels: LabelMap, ks: seq<string>): (r: seq<string>)
    requires forall k | k in ks :: k in labels
    ensures |r| == |ks| && forall i | 0 <= i < |ks| :: r[i] == PairText(labels, ks[i])
  {
    seq(|ks|, i requires 0 <= i < |ks| => PairText(labels, ks[i]))
  }

  /** `ks` is some order of the keys. */
  ghost predicate Orders(ks: seq<string>, labels: LabelMap) {
    && (forall k :: k in ks <==> k in labels)
    && forall i, j | 0 <= i < j < |ks| :: ks[i] != ks[j]
  }

  /** The header of a label map with its keys in the order `ks`; none for an empty map. */
  function Printed(labels: LabelMap, ks: seq<string>): (header: Option<string>)
    requires forall k | k in ks :: k in labels
  {
    if ks == [] then None else Some(Join(PairTexts(labels, ks), ','))
  }

  /** The SDKs sort the keys. */
  method IdentityHeader(labels: LabelMap) returns (header: Option<string>)
    ensures Orders(Sorted(labels.Keys), labels)
    ensures header == Printed(labels, Sorted(labels.Keys))
  {
    var ks := KeysInOrder(labels.Keys);
    forall i, j | 0 <= i < j < |ks|
      ensures ks[i] != ks[j]
    {
      if ks[i] == ks[j] {
        AscendingDistinct(ks, i, j);
      }
    }
    if |ks| == 0 {
      return None;
    }
    var parts: seq<string> := [];
    for i := 0 to |ks|
      invariant |parts| == i
      invariant forall j | 0 <= j < i :: ks[j] in labels && parts[j] == PairText(labels, ks[j])
    {
      assert ks[i] in ks;
      parts := parts + [ks[i] + "=" + labels[ks[i]]];
    }
    assert parts == PairTexts(labels, ks);
    header := Some(Join(parts, ','));
  }

  // ---------------- round trip ----------------

  predicate KeyOk(k: string) {
    k != "" && Trimmed(k) && Lacks(k, ',') && Lacks(k, '=') && Visible(k)
  }

  predicate ValueOk(v: string) {
    Trimmed(v) && Lacks(v, ',') && Visible(v)
  }

  /** The maps the header can carry. */
  ghost predicate Sendable(labels: LabelMap) {
    forall k | k in labels :: KeyOk(k) && ValueOk(labels[k])
  }

  lemma TrimKeeps(s: string)
    ensures Visible(s) ==> Visible(Trim(s))
    ensures forall c :: Lacks(s, c) ==> Lacks(Trim(s), c)
  {
    if Visible(s) {
      forall i | 0 <= i < |Trim(s)|
        ensures IsVisible(Trim(s)[i])
      {
        assert Trim(s)[i] in s;
      }
    }
  }

  lemma AddPairSendable(m: LabelMap, segment: string)
    requires Sendable(m) && Visible(segment) && Lacks(segment, ',')
    ensures Sendable(AddPair(m, segment))
  {
    hide Trim;
    var p := Trim(segment);
    TrimKeeps(segment);
    var kv := SplitOnce(p, '=');
    if kv.Some? {
      var (k, v) := kv.value;
      assert p == k + "=" + v;
      assert forall i | 0 <= i < |k| :: k[i] == p[i];
      assert forall i | 0 <= i < |v| :: v[i] == p[|k| + 1 + i];
      TrimKeeps(k);
      TrimKeeps(v);
    }
  }

  lemma {:induction false} AddPairsSendable(segments: seq<string>)
    requires AllLack(segments, ',') && forall i | 0 <= i < |segments| :: Visible(segments[i])
    ensures Sendable(AddPairs(segments))
  {
    hide AddPair;
    if segments != [] {
      AddPairsSendable(segments[..|segments| - 1]);
      AddPairSendable(AddPairs(segments[..|segments| - 1]), segments[|segments| - 1]);
    }
  }

  lemma {:induction false} SplitVisible(s: string, c: char)
    requires Visible(s)
    ensures forall i | 0 <= i < |Split(s, c)| :: Visible(Split(s, c)[i])
  {
    if s != "" {
      SplitVisible(s[1..], c);
    }
  }

  /** Whatever the header, the labels read from it could have been sent. */
  lemma ParsedSendable(header: Option<string>)
    ensures Sendable(Parsed(header))
  {
    hide AddPairs, Split;
    if header.Some? && Visible(header.value) {
      SplitVisible(header.value, ',');
      SplitLacks(header.value, ',');
      AddPairsSendable(Split(header.value, ','));
    }
  }

  lemma PairTextOk(k: string, v: string)
    requires KeyOk(k) && ValueOk(v)
    ensures var s := k + "=" + v; Trimmed(s) && Lacks(s, ',') && Visible(s) && SplitOnce(s, '=') == Some((k, v))
  {
    hide SplitOnce;
    SplitOnceFirst(k, v, '=');
  }

  /** Reading the printed pairs puts in one key after another. */
  lemma {:induction false} AddPairsPrinted(labels: LabelMap, ks: seq<string>)
    requires Sendable(labels) && (forall k | k in ks :: k in labels)
    ensures AddPairs(PairTexts(labels, ks)).Keys == Chosen(ks)
    ensures forall k | k in ks :: k in AddPairs(PairTexts(labels, ks)) && AddPairs(PairTexts(labels, ks))[k] == labels[k]
  {
    hide SplitOnce, Trim, KeyOk, ValueOk, PairTexts;
    if ks != [] {
      var n := |ks| - 1;
      var front, k := ks[..n], ks[n];
      assert k in ks && forall j | j in front :: j in ks;
      AddPairsPrinted(labels, front);
      assert PairTexts(labels, ks)[..n] == PairTexts(labels, front);
      var s := PairText(labels, k);
      assert PairTexts(labels, ks)[n] == s;
      PairTextOk(k, labels[k]);
      assert Trim(s) == s;
      KeyFacts(k, labels[k]);
      assert ks == front + [k];
      assert Chosen(ks) == Chosen(front) + {k};
    }
  }

  ghost function Chosen(ks: seq<string>): set<string> {
    set k | k in ks
  }

  lemma KeyFacts(k: string, v: string)
    requires KeyOk(k) && ValueOk(v)
    ensures k != "" && Trim(k) == k && Trim(v) == v
  {
  }

  lemma {:induction false} JoinVisible(parts: seq<string>, c: char)
    requires IsVisible(c) && forall i | 0 <= i < |parts| :: Visible(parts[i])
    ensures Visible(Join(parts, c))
  {
    if |parts| > 1 {
      forall i | 0 <= i < |parts[1..]|
        ensures Visible(parts[1..][i])
      {
        assert Visible(parts[i + 1]);
      }
      JoinVisible(parts[1..], c);
      assert Visible(parts[0]);
    }
  }

  lemma RoundTrip(labels: LabelMap, ks: seq<string>)
    requires Orders(ks, labels) && Sendable(labels)
    ensures Parsed(Printed(labels, ks)) == labels
  {
    hide AddPairs, Split, Join, Visible, KeyOk, ValueOk, PairTexts, IsVisible, Lacks;
    var parts := PairTexts(labels, ks);
    AddPairsPrinted(labels, ks);
    if ks == [] {
      assert labels == map[];
    } else {
      forall i | 0 <= i < |parts|
        ensures Visible(parts[i]) && Lacks(parts[i], ',')
      {
        assert ks[i] in ks;
        PairTextOk(ks[i], labels[ks[i]]);
      }
      CommaVisible();
      JoinVisible(parts, ',');
      SplitJoin(parts, ',');
      assert AddPairs(parts) == labels;
    }
  }

  lemma CommaVisible()
    ensures IsVisible(',')
  {
  }

  /** Printing and parsing give back the labels, in whatever order the keys were printed and however
      many there are, if and only if every key is non-empty, trimmed, visible and free of `,` and `=`
      and every value trimmed, visible and free of `,`. */
  lemma RoundTripIff(labels: LabelMap, ks: seq<string>)
    requires Orders(ks, labels)
    ensures Parsed(Printed(labels, ks)) == labels <==> Sendable(labels)
  {
    hide Parsed, Printed, Sendable;
    ParsedSendable(Printed(labels, ks));
    if Sendable(labels) {
      RoundTrip(labels, ks);
    }
  }

  /** Two headers for one map, in different key orders, read alike. */
  lemma OrderIrrelevant(labels: LabelMap, ks: seq<string>, ls: seq<string>)
    requires Orders(ks, labels) && Orders(ls, labels) && Sendable(labels)
    ensures Parsed(Printed(labels, ks)) == Parsed(Printed(labels, ls))
  {
    RoundTrip(labels, ks);
    RoundTrip(labels, ls);
  }

  // ---------------- odd headers ----------------

  lemma ExtraSegment(h: string, segment: string)
    requires Visible(h) && Visible(segment) && Lacks(segment, ',')
    ensures Parsed(Some(h + "," + segment)) == AddPair(Parsed(Some(h)), segment)
  {
    hide AddPair, Split, IsVisible;
    CommaVisible();
    SplitAppend(h, segment, ',');
    SplitAfter(segment, "", ',');
    var ps := Split(h, ',');
    assert (ps + [segment])[..|ps|] == ps;
    assert Visible(h + "," + segment);
  }

  /** What one more segment of a header does: blank, without `=`, or with an empty key, nothing; otherwise
      it sets its key, whether or not a segment before it did. */
  lemma SegmentMeans(h: string, segment: string, k: string, v: string)
    requires Visible(h) && Visible(segment) && Lacks(segment, ',')
    ensures Trim(segment) == "" || Lacks(segment, '=') ==> Parsed(Some(h + "," + segment)) == Parsed(Some(h))
    ensures segment == k + "=" + v && Trimmed(k) && Trimmed(v) && Lacks(k, '=') ==>
              Parsed(Some(h + "," + segment)) == if k == "" then Parsed(Some(h)) else Parsed(Some(h))[k := v]
  {
    hide Parsed, Visible;
    ExtraSegment(h, segment);
    TrimKeeps(segment);
    if segment == k + "=" + v && Trimmed(k) && Trimmed(v) && Lacks(k, '=') {
      SplitOnceFirst(k, v, '=');
      assert Trimmed(segment);
    }
  }
}
