/** Python string primitives the pipeline relies on: character classes,
    `str.count`, `str.split(sep)` for a one-character separator, `sep.join`,
    `str.strip()` and the first occurrence of a substring. */
module Text {
  import opened Wrappers

  /** The regex class `[0-9]` (and `\d`, restricted to ASCII). */
  predicate IsAsciiDigit(c: char) {
    '0' <= c <= '9'
  }

  /** The characters Python's `str.isspace` accepts, which `str.strip()`
      removes, as inclusive ranges. */
  const PySpaceRanges: seq<(char, char)> := [
    (' ', ' '),
    ('\U{9}', '\U{D}'),        // \t \n \v \f \r
    ('\U{1C}', '\U{1F}'),      // file, group, record and unit separators
    ('\U{85}', '\U{85}'), ('\U{A0}', '\U{A0}'), ('\U{1680}', '\U{1680}'),
    ('\U{2000}', '\U{200A}'),
    ('\U{2028}', '\U{2029}'), ('\U{202F}', '\U{202F}'), ('\U{205F}', '\U{205F}'), ('\U{3000}', '\U{3000}')]

  predicate InRanges(c: char, ranges: seq<(char, char)>) {
    |ranges| > 0 && ((ranges[0].0 <= c <= ranges[0].1) || InRanges(c, ranges[1..]))
  }

  predicate IsPySpace(c: char) {
    InRanges(c, PySpaceRanges)
  }

  /** `s.count(c)` for one character. */
  function Count(s: string, c: char): (n: nat)
    ensures n <= |s|
  {
    if |s| == 0 then 0 else (if s[0] == c then 1 else 0) + Count(s[1..], c)
  }

  /** `s.split(sep)`: the pieces between separators, always at least one. */
  function Split(s: string, sep: char): (parts: seq<string>)
    ensures |parts| == Count(s, sep) + 1
  {
    if |s| == 0 then [""]
    else
      var rest := Split(s[1..], sep);
      if s[0] == sep then [""] + rest
      else [[s[0]] + rest[0]] + rest[1..]
  }

  /** No piece of a split holds the separator. */
  lemma {:induction false} SplitPieceFree(s: string, sep: char, i: nat)
    requires i < |Split(s, sep)|
    ensures sep !in Split(s, sep)[i]
  {
    if |s| > 0 {
      var rest := Split(s[1..], sep);
      if s[0] == sep {
        if i > 0 {
          SplitPieceFree(s[1..], sep, i - 1);
        }
      } else if i == 0 {
        SplitPieceFree(s[1..], sep, 0);
        assert Split(s, sep)[0] == [s[0]] + rest[0];
      } else {
        SplitPieceFree(s[1..], sep, i);
      }
    }
  }

  /** `sep.join(parts)`. */
  function Join(parts: seq<string>, sep: char): string {
    if |parts| == 0 then ""
    else if |parts| == 1 then parts[0]
    else parts[0] + [sep] + Join(parts[1..], sep)
  }

  /** Joining the pieces of a split gives back the string. */
  lemma {:induction false} JoinSplit(s: string, sep: char)
    ensures Join(Split(s, sep), sep) == s
  {
    if |s| > 0 {
      var rest := Split(s[1..], sep);
      JoinSplit(s[1..], sep);
      if s[0] == sep {
        JoinCons([""] + rest, sep);
        assert ([""] + rest)[1..] == rest;
      } else {
        JoinPrepend(s[0], rest, sep);
      }
      assert s == [s[0]] + s[1..];
    }
  }

  /** Prepending a character to the first piece prepends it to the join. */
  lemma JoinPrepend(c: char, parts: seq<string>, sep: char)
    requires |parts| >= 1
    ensures Join([[c] + parts[0]] + parts[1..], sep) == [c] + Join(parts, sep)
  {
    var q := [[c] + parts[0]] + parts[1..];
    if |parts| >= 2 {
      JoinCons(q, sep);
      JoinCons(parts, sep);
      assert q[1..] == parts[1..];
    }
  }

  /** Splitting `a + t` where `a` holds no separator glues `a` onto the first piece of `t`. */
  lemma {:induction false} SplitPrefix(a: string, t: string, sep: char)
    requires sep !in a
    ensures Split(a + t, sep) == [a + Split(t, sep)[0]] + Split(t, sep)[1..]
  {
    if |a| == 0 {
      var st := Split(t, sep);
      assert a + t == t;
      assert a + st[0] == st[0];
      assert st == [st[0]] + st[1..];
    } else {
      var b := a[1..] + t;
      var st := Split(t, sep);
      assert (a + t)[0] == a[0] && (a + t)[1..] == b;
      SplitPrefix(a[1..], t, sep);
      var rest := Split(b, sep);
      assert Split(a + t, sep) == [[a[0]] + rest[0]] + rest[1..];
      assert rest[0] == a[1..] + st[0] && rest[1..] == st[1..];
      ConsConcat(a, st[0]);
    }
  }

  lemma ConsConcat<T>(a: seq<T>, b: seq<T>)
    requires |a| > 0
    ensures [a[0]] + (a[1..] + b) == a + b
  {
    assert a == [a[0]] + a[1..];
  }

  /** Splitting a join of separator-free pieces gives back the pieces. */
  lemma {:induction false} SplitJoin(parts: seq<string>, sep: char)
    requires |parts| >= 1
    requires forall i :: 0 <= i < |parts| ==> sep !in parts[i]
    ensures Split(Join(parts, sep), sep) == parts
  {
    if |parts| == 1 {
      SplitPrefix(parts[0], "", sep);
      assert parts[0] + "" == parts[0];
    } else {
      var a, rest := parts[0], parts[1..];
      var j := Join(rest, sep);
      SplitJoin(rest, sep);
      JoinCons(parts, sep);
      SplitPrefix(a, [sep] + j, sep);
      SplitAfterSeparator(j, sep);
      assert a + "" == a;
      assert parts == [a] + rest;
    }
  }

  lemma JoinCons(parts: seq<string>, sep: char)
    requires |parts| >= 2
    ensures Join(parts, sep) == parts[0] + ([sep] + Join(parts[1..], sep))
  {
  }

  lemma SplitAfterSeparator(s: string, sep: char)
    ensures Split([sep] + s, sep) == [""] + Split(s, sep)
  {
    assert ([sep] + s)[1..] == s;
  }

  predicate AllSpace(t: string) {
    forall k :: 0 <= k < |t| ==> IsPySpace(t[k])
  }

  /** The number of whitespace characters `s` starts with. */
  function Lead(s: string): (n: nat)
    ensures n <= |s|
  {
    if |s| > 0 && IsPySpace(s[0]) then 1 + Lead(s[1..]) else 0
  }

  /** The number of whitespace characters `s` ends with. */
  function Trail(s: string): (n: nat)
    ensures n <= |s|
  {
    if |s| > 0 && IsPySpace(s[|s| - 1]) then 1 + Trail(s[..|s| - 1]) else 0
  }

  lemma {:induction false} LeadAt(s: string, k: nat)
    requires k <= Lead(s)
    ensures k < Lead(s) ==> IsPySpace(s[k])
    ensures k == Lead(s) < |s| ==> !IsPySpace(s[k])
  {
    if k > 0 {
      LeadAt(s[1..], k - 1);
    }
  }

  lemma {:induction false} TrailEnd(s: string)
    ensures Trail(s) < |s| ==> !IsPySpace(s[|s| - 1 - Trail(s)])
  {
    if |s| > 0 && IsPySpace(s[|s| - 1]) {
      TrailEnd(s[..|s| - 1]);
    }
  }

  /** `s.lstrip()`. */
  function StripLeft(s: string): string {
    s[Lead(s)..]
  }

  /** `s.rstrip()`. */
  function StripRight(s: string): string {
    s[..|s| - Trail(s)]
  }

  /** `s.strip()`. */
  function Strip(s: string): string {
    StripRight(StripLeft(s))
  }

  /** Neither starts nor ends with whitespace. */
  predicate Trimmed(r: string) {
    r == [] || (!IsPySpace(r[0]) && !IsPySpace(r[|r| - 1]))
  }

  /** `s.strip()` is a slice of `s` that neither starts nor ends with
      whitespace, cut out by removing whitespace only (`i` chars on the left). */
  lemma StripIsTrim(s: string)
    ensures var r, i := Strip(s), |s| - |StripLeft(s)|;
      && i + |r| <= |s| && r == s[i..i + |r|]
      && AllSpace(s[..i]) && AllSpace(s[i + |r|..])
      && Trimmed(r)
  {
    var i := Lead(s);
    var l := StripLeft(s);
    var t := Trail(l);
    var r := Strip(s);
    assert r == l[..|l| - t];
    SliceOfSuffix(s, i, |r|);
    assert s[i + |r|..] == l[|l| - t..];
    LeadAllSpace(s);
    TrailAllSpace(l);
    if |r| > 0 {
      LeadAt(s, i);
      TrailEnd(l);
      assert r[0] == s[i] && r[|r| - 1] == l[|l| - 1 - t];
    }
  }

  lemma LeadAllSpace(s: string)
    ensures AllSpace(s[..Lead(s)])
  {
    var head := s[..Lead(s)];
    forall k | 0 <= k < |head| ensures IsPySpace(head[k]) {
      assert head[k] == s[k];
      LeadAt(s, k);
    }
  }

  lemma {:induction false} TrailAllSpace(s: string)
    ensures AllSpace(s[|s| - Trail(s)..])
  {
    if |s| > 0 && IsPySpace(s[|s| - 1]) {
      var p := s[..|s| - 1];
      TrailAllSpace(p);
      assert s[|s| - Trail(s)..] == p[|p| - Trail(p)..] + [s[|s| - 1]];
    }
  }

  lemma SliceOfSuffix<T>(s: seq<T>, i: nat, n: nat)
    requires i + n <= |s|
    ensures s[i..][..n] == s[i..i + n] && s[i..][n..] == s[i + n..]
  {
  }

  predicate OccursAt(s: string, pat: string, i: nat) {
    i + |pat| <= |s| && s[i..i + |pat|] == pat
  }

  /** The first position at or after `i` where `pat` occurs in `s`. */
  function FindFrom(s: string, pat: string, i: nat): (r: Option<nat>)
    requires i <= |s|
    ensures r.Some? ==> i <= r.value && OccursAt(s, pat, r.value)
    ensures r.Some? ==> forall k :: i <= k < r.value ==> !OccursAt(s, pat, k)
    ensures r.None? ==> forall k :: i <= k <= |s| ==> !OccursAt(s, pat, k)
    decreases |s| - i
  {
    if OccursAt(s, pat, i) then Some(i)
    else if i == |s| then None
    else FindFrom(s, pat, i + 1)
  }

  /** `pat in s` for strings. */
  predicate Contains(s: string, pat: string) {
    FindFrom(s, pat, 0).Some?
  }
}
