/** The pandas DataFrame the pipeline passes around: an ordered list of column
    labels, one column of cells per label, and a row count. Column assignment
    (`df[name] = values`) changes a frame in place; row selection (`df[mask]`)
    makes a new one. */
module Frames {

  /** A parsed timestamp, as pandas exposes it through `.dt`: the calendar
      fields of the instant, its ISO week number and its weekday (Monday is 0). */
  datatype DateTime = DateTime(
    year: int, month: int, day: int, hour: int, minute: int, second: int,
    isoWeek: int, weekday: int)

  predicate ValidDateTime(t: DateTime) {
    && 0 <= t.year
    && 1 <= t.month <= 12
    && 1 <= t.day <= 31
    && 0 <= t.hour < 24
    && 0 <= t.minute < 60
    && 0 <= t.second < 60
    && 1 <= t.isoWeek <= 53
    && 0 <= t.weekday < 7
  }

  /** One cell: an integer, a string or a timestamp. */
  datatype Value = Int(i: int) | Str(s: string) | Time(t: DateTime)

  predicate SameKind(a: Value, b: Value) {
    (a.Int? && b.Int?) || (a.Str? && b.Str?) || (a.Time? && b.Time?)
  }

  /** A column Python can sort: no two cells of different kinds (comparing an
      int with a str raises TypeError). */
  predicate Homogeneous(vs: seq<Value>) {
    forall a, b :: 0 <= a < |vs| && 0 <= b < |vs| ==> SameKind(vs[a], vs[b])
  }

  predicate AllInt(vs: seq<Value>) {
    forall k :: 0 <= k < |vs| ==> vs[k].Int?
  }

  predicate AllStr(vs: seq<Value>) {
    forall k :: 0 <= k < |vs| ==> vs[k].Str?
  }

  predicate AllTime(vs: seq<Value>) {
    forall k :: 0 <= k < |vs| ==> vs[k].Time? && ValidDateTime(vs[k].t)
  }

  function Strs(ss: seq<string>): (vs: seq<Value>)
    ensures |vs| == |ss| && AllStr(vs)
    ensures forall k :: 0 <= k < |ss| ==> vs[k] == Str(ss[k])
  {
    seq(|ss|, k requires 0 <= k < |ss| => Str(ss[k]))
  }

  function StrsOf(vs: seq<Value>): (ss: seq<string>)
    requires AllStr(vs)
    ensures |ss| == |vs| && Strs(ss) == vs
  {
    seq(|vs|, k requires 0 <= k < |vs| => vs[k].s)
  }

  lemma StrsRoundTrip(ss: seq<string>)
    ensures StrsOf(Strs(ss)) == ss
  {
    assert forall k :: 0 <= k < |ss| ==> StrsOf(Strs(ss))[k] == Strs(ss)[k].s == ss[k];
  }

  // ---------------------------------------------------------------------
  // Ordering of cells, as Python's `<` orders the values of one column
  // ---------------------------------------------------------------------

  /** Lexicographic order on integer sequences; a proper prefix comes first. */
  predicate LexLess(a: seq<int>, b: seq<int>)
    decreases |a|
  {
    |b| > 0 && (|a| == 0 || a[0] < b[0] || (a[0] == b[0] && LexLess(a[1..], b[1..])))
  }

  lemma {:induction false} LexIrreflexive(a: seq<int>)
    ensures !LexLess(a, a)
    decreases |a|
  {
    if |a| > 0 {
      LexIrreflexive(a[1..]);
    }
  }

  lemma {:induction false} LexTransitive(a: seq<int>, b: seq<int>, c: seq<int>)
    requires LexLess(a, b) && LexLess(b, c)
    ensures LexLess(a, c)
    decreases |a|
  {
    if |a| > 0 && a[0] == b[0] && b[0] == c[0] {
      LexTransitive(a[1..], b[1..], c[1..]);
    }
  }

  lemma {:induction false} LexTotal(a: seq<int>, b: seq<int>)
    requires a != b
    ensures LexLess(a, b) || LexLess(b, a)
    decreases |a|
  {
    if |a| > 0 && |b| > 0 && a[0] == b[0] {
      assert a == [a[0]] + a[1..] && b == [b[0]] + b[1..];
      LexTotal(a[1..], b[1..]);
    }
  }

  /** The code points of a string: Python compares strings by them. */
  function Codes(s: string): (r: seq<int>)
    ensures |r| == |s|
    ensures forall k :: 0 <= k < |s| ==> r[k] == s[k] as int
  {
    seq(|s|, k requires 0 <= k < |s| => s[k] as int)
  }

  function TimeKey(t: DateTime): seq<int> {
    [t.year, t.month, t.day, t.hour, t.minute, t.second, t.isoWeek, t.weekday]
  }

  /** Integers by value, strings by code points, timestamps chronologically.
      The kind tag in front orders cells of different kinds, which only the
      rejected mixed columns ever compare. */
  function Key(v: Value): seq<int> {
    match v
    case Int(i) => [0, i]
    case Str(s) => [1] + Codes(s)
    case Time(t) => [2] + TimeKey(t)
  }

  lemma KeyInjective(a: Value, b: Value)
    requires Key(a) == Key(b)
    ensures a == b
  {
    assert Key(a)[0] == Key(b)[0];
    if a.Int? {
      assert b.Int? && Key(a)[1] == Key(b)[1];
    } else if a.Str? {
      assert b.Str?;
      assert Codes(a.s) == Key(a)[1..] == Key(b)[1..] == Codes(b.s);
      assert forall k :: 0 <= k < |a.s| ==> a.s[k] as int == b.s[k] as int;
    } else {
      assert b.Time?;
      assert TimeKey(a.t) == Key(a)[1..] == Key(b)[1..] == TimeKey(b.t);
    }
  }

  predicate Less(a: Value, b: Value) {
    LexLess(Key(a), Key(b))
  }

  lemma LessIrreflexive(a: Value)
    ensures !Less(a, a)
  {
    LexIrreflexive(Key(a));
  }

  lemma LessTransitive(a: Value, b: Value, c: Value)
    requires Less(a, b) && Less(b, c)
    ensures Less(a, c)
  {
    LexTransitive(Key(a), Key(b), Key(c));
  }

  lemma LessTotal(a: Value, b: Value)
    requires a != b
    ensures Less(a, b) || Less(b, a)
  {
    if Key(a) == Key(b) {
      KeyInjective(a, b);
    }
    LexTotal(Key(a), Key(b));
  }

  predicate Ascending(r: seq<Value>) {
    forall a, b :: 0 <= a < b < |r| ==> Less(r[a], r[b])
  }

  lemma {:induction false} LexAsymmetric(a: seq<int>, b: seq<int>)
    ensures !(LexLess(a, b) && LexLess(b, a))
    decreases |a|
  {
    if |a| > 0 && |b| > 0 && a[0] == b[0] {
      LexAsymmetric(a[1..], b[1..]);
    }
  }

  /** The first element of an ascending sequence is below all the others. */
  lemma HeadIsLeast(r: seq<Value>)
    requires Ascending(r) && |r| > 0
    ensures forall w :: w in r ==> w == r[0] || Less(r[0], w)
  {
    forall w | w in r ensures w == r[0] || Less(r[0], w) {
      var k :| 0 <= k < |r| && r[k] == w;
      if k > 0 { assert Less(r[0], r[k]); }
    }
  }

  /** Two ascending sequences with the same elements are equal: the sorted
      order of a set is unique. */
  lemma {:induction false} AscendingUnique(r: seq<Value>, q: seq<Value>)
    requires Ascending(r) && Ascending(q)
    requires forall v :: v in r <==> v in q
    ensures r == q
    decreases |r|
  {
    if |r| > 0 { assert r[0] in q; }
    if |q| > 0 { assert q[0] in r; }
    if |r| > 0 {
      SameHead(r, q);
      SameTail(r, q);
      AscendingUnique(r[1..], q[1..]);
      assert r == [r[0]] + r[1..] && q == [q[0]] + q[1..];
    }
  }

  lemma SameHead(r: seq<Value>, q: seq<Value>)
    requires Ascending(r) && Ascending(q) && |r| > 0 && |q| > 0
    requires forall v :: v in r <==> v in q
    ensures r[0] == q[0]
  {
    assert r[0] in q && q[0] in r;
    HeadIsLeast(r);
    HeadIsLeast(q);
    LexAsymmetric(Key(r[0]), Key(q[0]));
  }

  lemma SameTail(r: seq<Value>, q: seq<Value>)
    requires Ascending(r) && Ascending(q) && |r| > 0 && |q| > 0 && r[0] == q[0]
    requires forall v :: v in r <==> v in q
    ensures Ascending(r[1..]) && Ascending(q[1..])
    ensures forall v :: v in r[1..] <==> v in q[1..]
  {
    forall v ensures v in r[1..] <==> v in q[1..] {
      LessIrreflexive(v);
      if v in r[1..] {
        var k :| 1 <= k < |r| && r[k] == v;
        assert Less(r[0], r[k]);
        assert v in q && v != q[0];
      }
      if v in q[1..] {
        var k :| 1 <= k < |q| && q[k] == v;
        assert Less(q[0], q[k]);
        assert v in r && v != r[0];
      }
    }
    assert forall a, b :: 0 <= a < b < |r| - 1 ==> r[1..][a] == r[a + 1] && r[1..][b] == r[b + 1];
    assert forall a, b :: 0 <= a < b < |q| - 1 ==> q[1..][a] == q[a + 1] && q[1..][b] == q[b + 1];
  }

  /** Inserts `v` into an ascending sequence unless it is already there. */
  function Insert(sorted: seq<Value>, v: Value): (r: seq<Value>)
    requires Ascending(sorted)
    ensures Ascending(r)
    ensures forall w :: w in r <==> w in sorted || w == v
  {
    if |sorted| == 0 then [v]
    else if v == sorted[0] then sorted
    else if Less(v, sorted[0]) then
      assert forall k :: 0 <= k < |sorted| ==> Less(v, sorted[k]) by {
        forall k | 0 < k < |sorted| ensures Less(v, sorted[k]) {
          LessTransitive(v, sorted[0], sorted[k]);
        }
      }
      [v] + sorted
    else
      var rest := Insert(sorted[1..], v);
      assert Less(sorted[0], v) by { LessTotal(v, sorted[0]); }
      assert forall w :: w in rest ==> Less(sorted[0], w);
      [sorted[0]] + rest
  }

  /** `sorted(set(vs))`: the distinct cells of a column, ascending. */
  function SortedDistinct(vs: seq<Value>): (r: seq<Value>)
    ensures Ascending(r)
    ensures forall v :: v in r <==> v in vs
    ensures |r| <= |vs|
  {
    if |vs| == 0 then []
    else
      var prev := SortedDistinct(vs[..|vs| - 1]);
      assert vs == vs[..|vs| - 1] + [vs[|vs| - 1]];
      var r := Insert(prev, vs[|vs| - 1]);
      assert |r| <= |prev| + 1 by { InsertLength(prev, vs[|vs| - 1]); }
      r
  }

  lemma {:induction false} InsertLength(sorted: seq<Value>, v: Value)
    requires Ascending(sorted)
    ensures |Insert(sorted, v)| <= |sorted| + 1
  {
    if |sorted| > 0 && v != sorted[0] && !Less(v, sorted[0]) {
      InsertLength(sorted[1..], v);
    }
  }

  // ---------------------------------------------------------------------
  // Row selection
  // ---------------------------------------------------------------------

  function CountTrue(mask: seq<bool>): (n: nat)
    ensures n <= |mask|
  {
    if |mask| == 0 then 0 else CountTrue(mask[..|mask| - 1]) + (if mask[|mask| - 1] then 1 else 0)
  }

  /** The cells of `xs` at the rows where `mask` holds, in row order. */
  function Filter<T>(xs: seq<T>, mask: seq<bool>): (r: seq<T>)
    requires |xs| == |mask|
    ensures |r| == CountTrue(mask)
  {
    if |xs| == 0 then []
    else
      Filter(xs[..|xs| - 1], mask[..|mask| - 1]) + (if mask[|mask| - 1] then [xs[|xs| - 1]] else [])
  }

  /** The rows of every column where `mask` holds. */
  function SelectRows(data: map<string, seq<Value>>, mask: seq<bool>): (r: map<string, seq<Value>>)
    requires forall c :: c in data ==> |data[c]| == |mask|
    ensures r.Keys == data.Keys
    ensures forall c :: c in data ==> r[c] == Filter(data[c], mask)
  {
    map c | c in data :: Filter(data[c], mask)
  }

  /** The three conditions that make a frame: distinct labels, exactly one
      column per label, every column as long as the frame. */
  ghost predicate WellFormed(columns: seq<string>, data: map<string, seq<Value>>, height: nat) {
    && (forall a, b :: 0 <= a < b < |columns| ==> columns[a] != columns[b])
    && (forall c :: c in data <==> c in columns)
    && (forall c :: c in data ==> |data[c]| == height)
  }

  class Frame {
    var columns: seq<string>
    var data: map<string, seq<Value>>
    var height: nat

    ghost predicate Valid()
      reads this
    {
      WellFormed(columns, data, height)
    }

    constructor (columns: seq<string>, data: map<string, seq<Value>>, height: nat)
      requires WellFormed(columns, data, height)
      ensures Valid()
      ensures this.columns == columns && this.data == data && this.height == height
    {
      this.columns := columns;
      this.data := data;
      this.height := height;
    }

    /** `df[name] = values`: replaces the column in place, or appends a new one. */
    method SetColumn(name: string, values: seq<Value>)
      requires Valid() && |values| == height
      modifies this
      ensures Valid() && height == old(height)
      ensures columns == if name in old(columns) then old(columns) else old(columns) + [name]
      ensures data == old(data)[name := values]
    {
      if name !in columns {
        columns := columns + [name];
      }
      data := data[name := values];
    }

    /** `df[mask]`: a new frame holding the rows where `mask` holds. */
    method Select(mask: seq<bool>) returns (r: Frame)
      requires Valid() && |mask| == height
      ensures fresh(r) && r.Valid()
      ensures r.columns == columns && r.height == CountTrue(mask)
      ensures r.data == SelectRows(data, mask)
    {
      r := new Frame(columns, SelectRows(data, mask), CountTrue(mask));
    }
  }
}
