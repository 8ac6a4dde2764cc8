/** The transcript-to-frame pipeline of utils.py: `create_df` cuts the
    stripped lines into (date, msg) rows, `add_msg_author` splits the author
    off, `add_words_by_msg` counts words, `add_date_info` derives the calendar
    columns and `add_started_conv` (present but not called) marks the
    messages that start a conversation. */
module Pipeline {
  import opened Wrappers
  import opened Text
  import opened Frames
  import opened Sanitize

  datatype PipelineError =
    | NoAuthorSeparator  // `str.split(": ", 1, expand=True)` yields one column, so `df[["author", "msg"]] = ...` raises
    | ColumnsOverlap     // `df.join(...)` with a calendar column the frame already has

  // =====================================================================
  // create_df
  // =====================================================================

  /** `re.split(r"(?<=\d{2}:\d{2}) - ", line, 1)` can cut at `p` exactly when
      ` - ` starts there and the five characters before it read `DD:DD`. */
  predicate HeaderAt(line: string, p: nat) {
    && 5 <= p && OccursAt(line, " - ", p)
    && IsAsciiDigit(line[p - 5]) && IsAsciiDigit(line[p - 4]) && line[p - 3] == ':'
    && IsAsciiDigit(line[p - 2]) && IsAsciiDigit(line[p - 1])
  }

  /** The leftmost cut position at or after `i`: the one `re.split` uses. */
  function FindHeader(line: string, i: nat): (r: Option<nat>)
    requires i <= |line|
    ensures r.Some? ==> i <= r.value && HeaderAt(line, r.value)
    ensures r.Some? ==> forall q :: i <= q < r.value ==> !HeaderAt(line, q)
    ensures r.None? ==> forall q :: i <= q ==> !HeaderAt(line, q)
    decreases |line| - i
  {
    if HeaderAt(line, i) then Some(i)
    else if i == |line| then None
    else FindHeader(line, i + 1)
  }

  /** `s.zfill(2)`: left-pads with `0` to width 2, after a leading sign. */
  function ZFill2(s: string): (r: string)
    ensures |r| == if |s| >= 2 then |s| else 2
    ensures |s| >= 2 ==> r == s
    ensures forall c :: c in r ==> c in s || c == '0'
  {
    if |s| >= 2 then s
    else if |s| == 1 && (s[0] == '+' || s[0] == '-') then [s[0], '0']
    else seq(2 - |s|, _ => '0') + s
  }

  predicate AllDigits(s: string) {
    forall k :: 0 <= k < |s| ==> IsAsciiDigit(s[k])
  }

  /** The number a string of decimal digits denotes. */
  function DigitsValue(s: string): nat
    requires AllDigits(s)
  {
    if |s| == 0 then 0 else 10 * DigitsValue(s[..|s| - 1]) + (s[|s| - 1] as int - '0' as int)
  }

  /** Padding a numeric date component keeps it numeric and keeps its value. */
  lemma ZFill2KeepsValue(s: string)
    requires AllDigits(s)
    ensures AllDigits(ZFill2(s)) && DigitsValue(ZFill2(s)) == DigitsValue(s)
  {
    var r := ZFill2(s);
    if |s| == 1 {
      assert r == "0" + s && r[..1] == "0";
    } else if |s| == 0 {
      assert r == "00" && r[..1] == "0";
    }
  }

  /** `"/".join([x.zfill(2) for x in date.split("/")])`. */
  function NormalizeDate(date: string): string {
    var parts := Split(date, '/');
    Join(seq(|parts|, k requires 0 <= k < |parts| => ZFill2(parts[k])), '/')
  }

  /** The `/`-components of a normalized date are the input's components, each
      padded: as many of them, each at least 2 long, the long ones unchanged. */
  lemma NormalizeDateComponents(date: string)
    ensures var parts, padded := Split(date, '/'), Split(NormalizeDate(date), '/');
      && |padded| == |parts|
      && (forall k :: 0 <= k < |parts| ==> padded[k] == ZFill2(parts[k]))
      && (forall k :: 0 <= k < |parts| ==> |padded[k]| >= 2)
      && (forall k :: 0 <= k < |parts| && |parts[k]| >= 2 ==> padded[k] == parts[k])
  {
    var parts := Split(date, '/');
    var filled := seq(|parts|, k requires 0 <= k < |parts| => ZFill2(parts[k]));
    forall k | 0 <= k < |filled| ensures '/' !in filled[k] {
      SplitPieceFree(date, '/', k);
    }
    SplitJoin(filled, '/');
  }

  /** One iteration of the loop of `create_df`. */
  function SegmentLine(line: string): Option<(string, string)> {
    if !Contains(line, " - ") then None
    else match FindHeader(line, 0)
      case None => None
      case Some(p) => Some((NormalizeDate(line[..p]), line[p + 3..]))
  }

  /** A line with a `DD:DD - ` header is cut at its FIRST header: the date is
      the normalized text before it and the message everything after it, so a
      later ` - ` stays in the message. */
  lemma SegmentLineAtFirstHeader(line: string, p: nat)
    requires HeaderAt(line, p)
    requires forall q: nat :: q < p ==> !HeaderAt(line, q)
    ensures SegmentLine(line) == Some((NormalizeDate(line[..p]), line[p + 3..]))
  {
    var found := FindHeader(line, 0);
    assert found.Some?;
    assert found.value == p;
    assert FindFrom(line, " - ", 0).Some?;
  }

  /** A line without a header yields no row. */
  lemma SegmentLineWithoutHeader(line: string)
    requires forall q: nat :: !HeaderAt(line, q)
    ensures SegmentLine(line) == None
  {
    assert FindHeader(line, 0).None?;
  }

  /** The rows `create_df` builds from `lines`, in order. */
  function Segmented(lines: seq<string>): (rows: seq<(string, string)>)
    ensures |rows| <= |lines|
  {
    if |lines| == 0 then []
    else
      Segmented(lines[..|lines| - 1])
      + (match SegmentLine(lines[|lines| - 1]) case None => [] case Some(row) => [row])
  }

  /** Segmentation works line by line: the rows of a concatenation are the
      rows of each part, in order. */
  lemma {:induction false} SegmentedConcat(a: seq<string>, b: seq<string>)
    ensures Segmented(a + b) == Segmented(a) + Segmented(b)
    decreases |b|
  {
    if |b| == 0 {
      assert a + b == a;
    } else {
      var b' := b[..|b| - 1];
      assert (a + b)[..|a + b| - 1] == a + b';
      assert (a + b)[|a + b| - 1] == b[|b| - 1];
      SegmentedConcat(a, b');
    }
  }

  /** A continuation line (no date header) is dropped: it is not appended to
      the message before it, which keeps exactly the text of its first line. */
  lemma ContinuationLineDropped(before: seq<string>, continuation: string, after: seq<string>)
    requires forall q: nat :: !HeaderAt(continuation, q)
    ensures Segmented(before + [continuation] + after) == Segmented(before) + Segmented(after)
  {
    SegmentLineWithoutHeader(continuation);
    var one := [continuation];
    assert Segmented(before + one) == Segmented(before) by {
      SegmentedConcat(before, one);
      assert one[..0] == [] && one[0] == continuation;
      assert Segmented(one) == [];
    }
    SegmentedConcat(before + one, after);
  }

  function Dates(rows: seq<(string, string)>): (r: seq<string>)
    ensures |r| == |rows| && forall k :: 0 <= k < |rows| ==> r[k] == rows[k].0
  {
    seq(|rows|, k requires 0 <= k < |rows| => rows[k].0)
  }

  function Msgs(rows: seq<(string, string)>): (r: seq<string>)
    ensures |r| == |rows| && forall k :: 0 <= k < |rows| ==> r[k] == rows[k].1
  {
    seq(|rows|, k requires 0 <= k < |rows| => rows[k].1)
  }

  /** The columns of the frame `create_df` builds from `rows`. */
  function CreatedData(rows: seq<(string, string)>): map<string, seq<Value>> {
    map["date" := Strs(Dates(rows)), "msg" := Strs(Msgs(rows))]
  }

  lemma SegmentedStep(lines: seq<string>, i: nat)
    requires i < |lines|
    ensures Segmented(lines[..i + 1])
         == Segmented(lines[..i]) + (match SegmentLine(lines[i]) case None => [] case Some(row) => [row])
  {
    assert lines[..i + 1][..i] == lines[..i];
  }

  /** The body of the loop of `create_df` for one line: the row it appends, if any. */
  method SegmentStep(line: string) returns (row: Option<(string, string)>)
    ensures row == SegmentLine(line)
  {
    row := None;
    if Contains(line, " - ") {
      var cut := FindHeader(line, 0);  // re.split(start_regex, line, 1)
      if cut.Some? {                   // len(line_splitted) == 2
        var p := cut.value;
        row := Some((NormalizeDate(line[..p]), line[p + 3..]));
      }
    }
  }

  lemma DatesMsgsSnoc(rows: seq<(string, string)>, row: (string, string))
    ensures Dates(rows + [row]) == Dates(rows) + [row.0]
    ensures Msgs(rows + [row]) == Msgs(rows) + [row.1]
  {
  }

  /** `create_df(stripped_data)`: the loop appends one date and one message per
      header line; the frame has the columns `date` and `msg`. */
  method CreateDf(lines: seq<string>) returns (df: Frame)
    ensures fresh(df) && df.Valid()
    ensures df.columns == ["date", "msg"]
    ensures df.height == |Segmented(lines)|
    ensures df.data == CreatedData(Segmented(lines))
  {
    var dates: seq<string> := [];
    var msgs: seq<string> := [];
    ghost var rows: seq<(string, string)> := [];
    var i := 0;
    while i < |lines|
      invariant 0 <= i <= |lines|
      invariant rows == Segmented(lines[..i])
      invariant dates == Dates(rows) && msgs == Msgs(rows)
    {
      var row := SegmentStep(lines[i]);
      SegmentedStep(lines, i);
      if row.Some? {
        DatesMsgsSnoc(rows, row.value);
        rows := rows + [row.value];
        dates := dates + [row.value.0];
        msgs := msgs + [row.value.1];
      }
      i := i + 1;
    }
    assert lines[..|lines|] == lines;
    df := new Frame(["date", "msg"], map["date" := Strs(dates), "msg" := Strs(msgs)], |dates|);
  }

  // =====================================================================
  // add_msg_author
  // =====================================================================

  /** `msg.split(": ", 1)` when it has two parts. */
  function SplitAuthor(m: string): (r: Option<(string, string)>)
    ensures r.Some? <==> Contains(m, ": ")
    ensures r.Some? ==> r.value.0 + ": " + r.value.1 == m
  {
    match FindFrom(m, ": ", 0)
    case None => None
    case Some(p) =>
      assert m == m[..p] + ": " + m[p + 2..] by {
        assert m[p..p + 2] == ": ";
      }
      Some((m[..p], m[p + 2..]))
  }

  /** The author is the text before the FIRST `": "` and the body everything
      after it: any decomposition `author + ": " + body` whose author holds no
      `": "` is the one `SplitAuthor` returns, so later `": "` stay in the body. */
  lemma AuthorBeforeFirstSeparator(m: string, author: string, body: string)
    requires author + ": " + body == m
    requires !Contains(author, ": ")
    ensures SplitAuthor(m) == Some((author, body))
  {
    var n := |author|;
    assert OccursAt(m, ": ", n) by {
      assert m[n..n + 2] == ": ";
    }
    assert FindFrom(author, ": ", 0).None?;
    forall k | 0 <= k < n
      ensures !OccursAt(m, ": ", k)
    {
      if k + 2 <= n {
        assert m[k..k + 2] == author[k..k + 2];
        assert !OccursAt(author, ": ", k);
      } else {
        assert m[k + 1] == ':';
      }
    }
    var p := FindFrom(m, ": ", 0).value;
    assert p == n;
    assert m[..n] == author;
    assert m[n + 2..] == body;
  }

  lemma SeparatorHasColon(m: string)
    requires Contains(m, ": ")
    ensures ':' in m
  {
    var p := FindFrom(m, ": ", 0).value;
    assert m[p..p + 2] == ": ";
    assert m[p] == ':';
  }

  function AuthorOf(m: string): string {
    match SplitAuthor(m) case Some(split) => split.0 case None => m
  }

  function BodyOf(m: string): string {
    match SplitAuthor(m) case Some(split) => split.1 case None => ""
  }

  function ColonMask(msgs: seq<string>): (mask: seq<bool>)
    ensures |mask| == |msgs| && forall k :: 0 <= k < |msgs| ==> mask[k] == (':' in msgs[k])
  {
    seq(|msgs|, k requires 0 <= k < |msgs| => ':' in msgs[k])
  }

  function SepMask(msgs: seq<string>): (mask: seq<bool>)
    ensures |mask| == |msgs| && forall k :: 0 <= k < |msgs| ==> mask[k] == Contains(msgs[k], ": ")
  {
    seq(|msgs|, k requires 0 <= k < |msgs| => Contains(msgs[k], ": "))
  }

  function Authors(msgs: seq<string>): (r: seq<string>)
    ensures |r| == |msgs| && forall k :: 0 <= k < |msgs| ==> r[k] == AuthorOf(msgs[k])
  {
    seq(|msgs|, k requires 0 <= k < |msgs| => AuthorOf(msgs[k]))
  }

  function Bodies(msgs: seq<string>): (r: seq<string>)
    ensures |r| == |msgs| && forall k :: 0 <= k < |msgs| ==> r[k] == BodyOf(msgs[k])
  {
    seq(|msgs|, k requires 0 <= k < |msgs| => BodyOf(msgs[k]))
  }

  lemma {:induction false} FilterStrs(ss: seq<string>, mask: seq<bool>)
    requires |ss| == |mask|
    ensures Filter(Strs(ss), mask) == Strs(Filter(ss, mask))
  {
    if |ss| > 0 {
      var n := |ss| - 1;
      assert Strs(ss)[..n] == Strs(ss[..n]);
      FilterStrs(ss[..n], mask[..n]);
    }
  }

  lemma {:induction false} FilterSepMask(msgs: seq<string>, mask: seq<bool>)
    requires |msgs| == |mask|
    ensures Filter(SepMask(msgs), mask) == SepMask(Filter(msgs, mask))
  {
    if |msgs| > 0 {
      var n := |msgs| - 1;
      assert SepMask(msgs)[..n] == SepMask(msgs[..n]);
      FilterSepMask(msgs[..n], mask[..n]);
      var f := Filter(msgs[..n], mask[..n]);
      if mask[n] {
        assert SepMask(f + [msgs[n]]) == SepMask(f) + [Contains(msgs[n], ": ")];
      }
    }
  }

  /** Selecting with a coarse mask, then with a finer one that only keeps rows
      the coarse one kept, is selecting with the finer one. */
  lemma {:induction false} FilterTwice<T>(xs: seq<T>, coarse: seq<bool>, fine: seq<bool>)
    requires |xs| == |coarse| == |fine|
    requires forall k :: 0 <= k < |fine| && fine[k] ==> coarse[k]
    ensures Filter(Filter(xs, coarse), Filter(fine, coarse)) == Filter(xs, fine)
  {
    if |xs| > 0 {
      var n := |xs| - 1;
      FilterTwice(xs[..n], coarse[..n], fine[..n]);
      var f, g := Filter(xs[..n], coarse[..n]), Filter(fine[..n], coarse[..n]);
      if coarse[n] {
        var s, m := f + [xs[n]], g + [fine[n]];
        assert s[..|s| - 1] == f && m[..|m| - 1] == g;
        assert s[|s| - 1] == xs[n] && m[|m| - 1] == fine[n];
        assert Filter(s, m) == Filter(f, g) + (if fine[n] then [xs[n]] else []);
      } else {
        assert !fine[n];
        assert Filter(xs, coarse) == f + [] == f;
        assert Filter(fine, coarse) == g + [] == g;
        assert Filter(xs, fine) == Filter(xs[..n], fine[..n]) + [];
      }
    }
  }

  lemma SelectTwice(data: map<string, seq<Value>>, coarse: seq<bool>, fine: seq<bool>)
    requires |coarse| == |fine|
    requires forall c :: c in data ==> |data[c]| == |fine|
    requires forall k :: 0 <= k < |fine| && fine[k] ==> coarse[k]
    ensures SelectRows(SelectRows(data, coarse), Filter(fine, coarse)) == SelectRows(data, fine)
  {
    forall c | c in data
      ensures SelectRows(SelectRows(data, coarse), Filter(fine, coarse))[c] == SelectRows(data, fine)[c]
    {
      FilterTwice(data[c], coarse, fine);
    }
  }

  /** The two masks `add_msg_author` applies one after the other: the second
      (`": "` in the message) only keeps rows the first (`:`) kept, so together
      they keep exactly the rows with `": "`, in order. */
  lemma AuthorMasks(msgs: seq<string>)
    ensures forall k :: 0 <= k < |msgs| && SepMask(msgs)[k] ==> ColonMask(msgs)[k]
    ensures SepMask(Filter(msgs, ColonMask(msgs))) == Filter(SepMask(msgs), ColonMask(msgs))
    ensures CountTrue(Filter(SepMask(msgs), ColonMask(msgs))) == CountTrue(SepMask(msgs))
    ensures Filter(Filter(msgs, ColonMask(msgs)), Filter(SepMask(msgs), ColonMask(msgs)))
         == Filter(msgs, SepMask(msgs))
  {
    var colon, keep := ColonMask(msgs), SepMask(msgs);
    forall k | 0 <= k < |msgs| && keep[k] ensures colon[k] {
      SeparatorHasColon(msgs[k]);
    }
    FilterSepMask(msgs, colon);
    FilterTwice(msgs, colon, keep);
    FilterTwice(keep, colon, keep);
  }

  /** No message has `": "`. */
  predicate NoSeparator(msgs: seq<string>) {
    forall k :: 0 <= k < |msgs| ==> !Contains(msgs[k], ": ")
  }

  /** No row survives exactly when no message has `": "`. */
  lemma {:induction false} NoneKeptIffNoSeparator(msgs: seq<string>)
    ensures CountTrue(SepMask(msgs)) == 0 <==> NoSeparator(msgs)
  {
    if |msgs| > 0 {
      var n := |msgs| - 1;
      assert SepMask(msgs)[..n] == SepMask(msgs[..n]);
      NoneKeptIffNoSeparator(msgs[..n]);
      assert forall k :: 0 <= k < n ==> msgs[..n][k] == msgs[k];
    }
  }

  /** The columns `add_msg_author` leaves: the rows whose message has `": "`,
      with the message replaced by its body and the author in its own column. */
  function AuthoredData(data: map<string, seq<Value>>): map<string, seq<Value>>
    requires "msg" in data && AllStr(data["msg"])
    requires forall c :: c in data ==> |data[c]| == |data["msg"]|
  {
    var msgs := StrsOf(data["msg"]);
    var keep := SepMask(msgs);
    var kept := Filter(msgs, keep);
    SelectRows(data, keep)["author" := Strs(Authors(kept))]["msg" := Strs(Bodies(kept))]
  }

  /** `add_msg_author(df)`: keeps the rows whose message has `:` (and, through
      `dropna`, only those whose message has `": "`), and replaces the message
      by its author and body. Fails when no message has `": "`. */
  method AddMsgAuthor(df: Frame) returns (r: Result<Frame, PipelineError>)
    requires df.Valid() && "msg" in df.data && AllStr(df.data["msg"])
    ensures var msgs := StrsOf(df.data["msg"]);
      r.Err? <==> NoSeparator(msgs)
    ensures r.Ok? ==>
      && fresh(r.value) && r.value.Valid()
      && r.value.columns == WithColumn(df.columns, "author")
      && r.value.height == CountTrue(SepMask(StrsOf(df.data["msg"])))
      && r.value.data == AuthoredData(df.data)
  {
    var msgs := StrsOf(df.data["msg"]);
    var colon, keep := ColonMask(msgs), SepMask(msgs);
    AuthorMasks(msgs);
    NoneKeptIffNoSeparator(msgs);
    // df = df[df["msg"].str.contains(":")]
    var withColon := df.Select(colon);
    FilterStrs(msgs, colon);
    var cmsgs := StrsOf(withColon.data["msg"]);
    assert cmsgs == Filter(msgs, colon);
    var ckeep := SepMask(cmsgs);
    if CountTrue(ckeep) == 0 {
      r := Err(NoAuthorSeparator);
      return;
    }
    // the split leaves `msg` NaN on the rows without ": ", which dropna removes
    var f := withColon.Select(ckeep);
    SelectTwice(df.data, colon, keep);
    var kept := Filter(msgs, keep);
    FilterStrs(msgs, keep);
    assert f.data["msg"] == Strs(kept);
    f.SetColumn("author", Strs(Authors(kept)));
    f.SetColumn("msg", Strs(Bodies(kept)));
    r := Ok(f);
  }
  // =====================================================================
  // add_words_by_msg
  // =====================================================================

  /** `msg.count(" ") + 1`: at least 1, and the number of pieces of `msg.split(" ")`. */
  function Words(m: string): (n: nat)
    ensures n >= 1
    ensures n == |Split(m, ' ')|
  {
    Count(m, ' ') + 1
  }

  lemma {:induction false} CountConcat(a: string, b: string, c: char)
    ensures Count(a + b, c) == Count(a, c) + Count(b, c)
  {
    if |a| > 0 {
      assert (a + b)[1..] == a[1..] + b;
      CountConcat(a[1..], b, c);
    } else {
      assert a + b == b;
    }
  }

  /** Two messages joined by one space have as many words as both together. */
  lemma WordsConcat(a: string, b: string)
    ensures Words(a + " " + b) == Words(a) + Words(b)
  {
    CountConcat(a, " " + b, ' ');
    CountConcat(" ", b, ' ');
    assert a + " " + b == a + (" " + b);
  }

  function WordsColumn(msgs: seq<string>): (r: seq<Value>)
    ensures |r| == |msgs|
    ensures forall k :: 0 <= k < |msgs| ==> r[k] == Int(Words(msgs[k])) && r[k].i >= 1
  {
    seq(|msgs|, k requires 0 <= k < |msgs| => Int(Words(msgs[k])))
  }

  /** The columns after `add_words_by_msg`. */
  function WordsData(data: map<string, seq<Value>>): map<string, seq<Value>>
    requires "msg" in data && AllStr(data["msg"])
  {
    data["words" := WordsColumn(StrsOf(data["msg"]))]
  }

  /** `add_words_by_msg(df)`: sets the `words` column of `df` itself and returns `df`. */
  method AddWordsByMsg(df: Frame) returns (r: Frame)
    requires df.Valid() && "msg" in df.data && AllStr(df.data["msg"])
    modifies df
    ensures r == df && df.Valid() && df.height == old(df.height)
    ensures df.columns == WithColumn(old(df.columns), "words")
    ensures df.data == WordsData(old(df.data))
  {
    df.SetColumn("words", WordsColumn(StrsOf(df.data["msg"])));
    r := df;
  }

  // =====================================================================
  // add_date_info
  // =====================================================================

  /** The columns `pd.concat(date_gen, axis=1)` joins on, in order. */
  const DateFields: seq<string> := ["year", "month", "day", "hour", "weekofyear", "quarter"]

  /** The columns assigned one by one afterwards, in order. */
  const DateKeys: seq<string> := ["dayofweek", "year_week", "year_month"]

  /** `.dt.quarter`. */
  function Quarter(month: int): (q: int)
    ensures 1 <= month <= 12 ==> 1 <= q <= 4 && 3 * q - 2 <= month <= 3 * q
  {
    (month - 1) / 3 + 1
  }

  function DigitChar(d: int): char
    requires 0 <= d < 10
  {
    ('0' as int + d) as char
  }

  /** A number below 100 written with two digits, as `%y`, `%m` and `%V` write it. */
  function Pad2(n: int): (r: string)
    requires 0 <= n < 100
    ensures |r| == 2 && AllDigits(r) && DigitsValue(r) == n
  {
    var r := [DigitChar(n / 10), DigitChar(n % 10)];
    assert r[..1] == [r[0]] && r[..1][..0] == [];
    assert r[0] as int - '0' as int == n / 10 && r[1] as int - '0' as int == n % 10;
    assert DigitsValue(r[..1]) == n / 10;
    r
  }

  /** `.dt.day_name()` in the default English locale. */
  function DayName(weekday: int): string
    requires 0 <= weekday < 7
  {
    ["Monday", "Tuesday", "Wednesday", "Thursday", "Friday", "Saturday", "Sunday"][weekday]
  }

  /** `strftime('%y-%m')`: the two-digit year, `-`, the two-digit month. */
  function YearMonth(t: DateTime): string
    requires ValidDateTime(t)
  {
    Pad2(t.year % 100) + "-" + Pad2(t.month)
  }

  /** `strftime('%y-%V')`: the two-digit CALENDAR year with the ISO week. */
  function YearWeek(t: DateTime): string
    requires ValidDateTime(t)
  {
    Pad2(t.year % 100) + "-" + Pad2(t.isoWeek)
  }

  /** `year_month` is five characters, `YY-MM`, whose digit pairs read back as
      the year modulo 100 and the month. */
  lemma YearMonthReadsBack(t: DateTime)
    requires ValidDateTime(t)
    ensures var ym := YearMonth(t);
      && |ym| == 5 && ym[2] == '-'
      && AllDigits(ym[..2]) && DigitsValue(ym[..2]) == t.year % 100
      && AllDigits(ym[3..]) && DigitsValue(ym[3..]) == t.month
  {
    var ym := YearMonth(t);
    assert ym[..2] == Pad2(t.year % 100);
    assert ym[3..] == Pad2(t.month);
  }

  /** Within one century the `year_month` keys sort as the months they name:
      string order on the keys is (year, month) order. */
  lemma YearMonthSortsChronologically(a: DateTime, b: DateTime)
    requires ValidDateTime(a) && ValidDateTime(b)
    requires a.year / 100 == b.year / 100
    ensures Less(Str(YearMonth(a)), Str(YearMonth(b)))
      <==> a.year < b.year || (a.year == b.year && a.month < b.month)
  {
    var ya, yb := a.year % 100, b.year % 100;
    YearMonthKey(a);
    YearMonthKey(b);
    var c0, c1, c3, c4 := DigitCode(ya / 10), DigitCode(ya % 10), DigitCode(a.month / 10), DigitCode(a.month % 10);
    var d0, d1, d3, d4 := DigitCode(yb / 10), DigitCode(yb % 10), DigitCode(b.month / 10), DigitCode(b.month % 10);
    LexCons(c4, [], d4, []);
    LexCons(c3, [c4], d3, [d4]);
    LexCons(45, [c3, c4], 45, [d3, d4]);
    LexCons(c1, [45, c3, c4], d1, [45, d3, d4]);
    LexCons(c0, [c1, 45, c3, c4], d0, [d1, 45, d3, d4]);
    LexCons(1, [c0, c1, 45, c3, c4], 1, [d0, d1, 45, d3, d4]);
    TwoDigitOrder(ya, yb);
    TwoDigitOrder(a.month, b.month);
    assert a.year == 100 * (a.year / 100) + ya && b.year == 100 * (b.year / 100) + yb;
  }

  function DigitCode(d: int): int {
    '0' as int + d
  }

  /** The sort key of a `year_month` string, written out. */
  lemma YearMonthKey(t: DateTime)
    requires ValidDateTime(t)
    ensures Key(Str(YearMonth(t))) == [1] + [DigitCode(t.year % 100 / 10), DigitCode(t.year % 100 % 10), 45,
                                             DigitCode(t.month / 10), DigitCode(t.month % 10)]
  {
  }

  lemma LexCons(x: int, a: seq<int>, y: int, b: seq<int>)
    ensures LexLess([x] + a, [y] + b) <==> x < y || (x == y && LexLess(a, b))
  {
    assert ([x] + a)[1..] == a && ([y] + b)[1..] == b;
  }

  /** Two-digit numbers compare as their digit pairs do. */
  lemma TwoDigitOrder(x: int, y: int)
    requires 0 <= x < 100 && 0 <= y < 100
    ensures x < y <==> x / 10 < y / 10 || (x / 10 == y / 10 && x % 10 < y % 10)
  {
    assert x == 10 * (x / 10) + x % 10 && y == 10 * (y / 10) + y % 10;
  }
  /** The value `add_date_info` puts in column `name` for timestamp `t`. */
  function DateAttribute(t: DateTime, name: string): Value
    requires ValidDateTime(t)
  {
    if name == "year" then Int(t.year)
    else if name == "month" then Int(t.month)
    else if name == "day" then Int(t.day)
    else if name == "hour" then Int(t.hour)
    else if name == "weekofyear" then Int(t.isoWeek)
    else if name == "quarter" then Int(Quarter(t.month))
    else if name == "dayofweek" then Str(DayName(t.weekday))
    else if name == "year_week" then Str(YearWeek(t))
    else Str(YearMonth(t))
  }

  function DateColumn(dates: seq<Value>, name: string): (r: seq<Value>)
    requires AllTime(dates)
    ensures |r| == |dates|
  {
    seq(|dates|, k requires 0 <= k < |dates| => DateAttribute(dates[k].t, name))
  }

  /** `cols` with `name` appended unless it is already there. */
  function WithColumn(cols: seq<string>, name: string): seq<string> {
    if name in cols then cols else cols + [name]
  }

  /** The labels after `add_date_info`. */
  function DateInfoColumns(cols: seq<string>): seq<string> {
    WithColumn(WithColumn(WithColumn(cols + DateFields, "dayofweek"), "year_week"), "year_month")
  }

  /** The columns after `add_date_info`. */
  function DateInfoData(data: map<string, seq<Value>>): (d: map<string, seq<Value>>)
    requires "date" in data && AllTime(data["date"])
    ensures var dates := data["date"];
      && "year" in d && d["year"] == DateColumn(dates, "year") && "month" in d && d["month"] == DateColumn(dates, "month")
      && "day" in d && d["day"] == DateColumn(dates, "day") && "hour" in d && d["hour"] == DateColumn(dates, "hour")
      && "weekofyear" in d && d["weekofyear"] == DateColumn(dates, "weekofyear") && "quarter" in d && d["quarter"] == DateColumn(dates, "quarter")
      && "dayofweek" in d && d["dayofweek"] == DateColumn(dates, "dayofweek") && "year_week" in d && d["year_week"] == DateColumn(dates, "year_week")
      && "year_month" in d && d["year_month"] == DateColumn(dates, "year_month")
  {
    var dates := data["date"];
    data
      ["year" := DateColumn(dates, "year")]
      ["month" := DateColumn(dates, "month")]
      ["day" := DateColumn(dates, "day")]
      ["hour" := DateColumn(dates, "hour")]
      ["weekofyear" := DateColumn(dates, "weekofyear")]
      ["quarter" := DateColumn(dates, "quarter")]
      ["dayofweek" := DateColumn(dates, "dayofweek")]
      ["year_week" := DateColumn(dates, "year_week")]
      ["year_month" := DateColumn(dates, "year_month")]
  }

  /** Row `k` after `add_date_info`: every calendar column describes the
      timestamp of that row (a quarter in 1..4 that holds the month, an English
      weekday name, `YY-WW` and `YY-MM` keys) and every other column is as it was. */
  lemma DateInfoRow(data: map<string, seq<Value>>, k: nat)
    requires "date" in data && AllTime(data["date"]) && k < |data["date"]|
    ensures var d, t := DateInfoData(data), data["date"][k].t;
      && d.Keys == data.Keys + {"year", "month", "day", "hour", "weekofyear", "quarter", "dayofweek", "year_week", "year_month"}
      && (forall c :: c in data && c !in DateFields && c !in DateKeys ==> d[c] == data[c])
      && d["date"] == data["date"]
      && d["year"][k] == Int(t.year) && d["month"][k] == Int(t.month) && d["day"][k] == Int(t.day)
      && d["hour"][k] == Int(t.hour) && d["weekofyear"][k] == Int(t.isoWeek)
      && d["quarter"][k].Int? && 1 <= d["quarter"][k].i <= 4
      && 3 * d["quarter"][k].i - 2 <= t.month <= 3 * d["quarter"][k].i
      && d["dayofweek"][k] == Str(DayName(t.weekday))
      && d["dayofweek"][k].s in ["Monday", "Tuesday", "Wednesday", "Thursday", "Friday", "Saturday", "Sunday"]
      && d["year_week"][k] == Str(YearWeek(t))
      && d["year_month"][k] == Str(YearMonth(t))
  {
    var dates, t := data["date"], data["date"][k].t;
    assert ValidDateTime(t);
    DateInfoKeys(data);
    DateInfoUnchanged(data);
    assert DateColumn(dates, "quarter")[k] == Int(Quarter(t.month));
    assert DateColumn(dates, "dayofweek")[k] == Str(DayName(t.weekday));
  }

  lemma DateInfoKeys(data: map<string, seq<Value>>)
    requires "date" in data && AllTime(data["date"])
    ensures DateInfoData(data).Keys
      == data.Keys + {"year", "month", "day", "hour", "weekofyear", "quarter", "dayofweek", "year_week", "year_month"}
  {
  }

  lemma DateInfoUnchanged(data: map<string, seq<Value>>)
    requires "date" in data && AllTime(data["date"])
    ensures var d := DateInfoData(data);
      && (forall c :: c in data && c !in DateFields && c !in DateKeys ==> d[c] == data[c])
      && d["date"] == data["date"]
  {
  }

  /** `add_date_info(df)`: joins the six calendar columns (failing if the frame
      already has one of them), then sets `dayofweek`, `year_week` and `year_month`. */
  method AddDateInfo(df: Frame) returns (r: Result<Frame, PipelineError>)
    requires df.Valid() && "date" in df.data && AllTime(df.data["date"])
    ensures r.Err? <==> exists c :: c in DateFields && c in df.data
    ensures r.Ok? ==>
      && fresh(r.value) && r.value.Valid() && r.value.height == df.height
      && r.value.columns == DateInfoColumns(df.columns)
      && r.value.data == DateInfoData(df.data)
  {
    if exists c :: c in DateFields && c in df.data {
      r := Err(ColumnsOverlap);
      return;
    }
    var dates := df.data["date"];
    var joined := df.data
      ["year" := DateColumn(dates, "year")]
      ["month" := DateColumn(dates, "month")]
      ["day" := DateColumn(dates, "day")]
      ["hour" := DateColumn(dates, "hour")]
      ["weekofyear" := DateColumn(dates, "weekofyear")]
      ["quarter" := DateColumn(dates, "quarter")];
    var cols := df.columns + DateFields;
    forall a, b | 0 <= a < b < |cols| ensures cols[a] != cols[b] {
      if b >= |df.columns| && a < |df.columns| {
        assert cols[b] in DateFields && cols[a] in df.data;
      }
    }
    var f := new Frame(cols, joined, df.height);
    f.SetColumn("dayofweek", DateColumn(dates, "dayofweek"));
    f.SetColumn("year_week", DateColumn(dates, "year_week"));
    f.SetColumn("year_month", DateColumn(dates, "year_month"));
    r := Ok(f);
  }

  // =====================================================================
  // add_started_conv (defined in utils.py, not called by the pipeline)
  // =====================================================================

  /** Whole hours of a duration in seconds, as the unit cast
      `astype('timedelta64[h]')` gives them: rounded down, so a gap of -1 s
      is -1 h. */
  function WholeHours(seconds: int): int {
    seconds / 3600
  }

  /** The `starting` column over timestamps in seconds: the first row has no
      previous one (NaN), which is never more than 6 hours. */
  function Starting(times: seq<int>): (r: seq<bool>)
    ensures |r| == |times|
  {
    seq(|times|, k requires 0 <= k < |times| => k > 0 && WholeHours(times[k] - times[k - 1]) > 6)
  }

  /** The `days_to_prev_msg` column: whole hours floor-divided by 24, missing on the first row. */
  function DaysToPrevMsg(times: seq<int>): (r: seq<Option<int>>)
    ensures |r| == |times|
  {
    seq(|times|, k requires 0 <= k < |times| =>
      if k == 0 then None else Some(WholeHours(times[k] - times[k - 1]) / 24))
  }

  /** A message starts a conversation exactly when it is not the first and at
      least 7 hours (25200 seconds) passed since the previous one: more than 6
      WHOLE hours. Out-of-order timestamps never start one. */
  lemma StartingExactly(times: seq<int>, k: nat)
    requires k < |times|
    ensures Starting(times)[k] <==> k > 0 && times[k] - times[k - 1] >= 7 * 3600
  {
    if k > 0 {
      var d := times[k] - times[k - 1];
      if d >= 0 {
        assert d / 3600 > 6 <==> d >= 25200;
      } else {
        assert WholeHours(d) < 0;
      }
    }
  }

  /** `days_to_prev_msg` is missing on the first message; on every other it
      is the gap to the previous message in whole days, rounded down (a
      message earlier than its predecessor gets a negative count). */
  lemma DaysToPrevMsgExactly(times: seq<int>, k: nat)
    requires k < |times|
    ensures DaysToPrevMsg(times)[k].None? <==> k == 0
    ensures k > 0 ==> DaysToPrevMsg(times)[k] == Some((times[k] - times[k - 1]) / 86400)
  {
    if k > 0 {
      var g := times[k] - times[k - 1];
      var h, d := g / 3600, g / 3600 / 24;
      assert g == 3600 * h + g % 3600 && 0 <= g % 3600 < 3600;
      assert h == 24 * d + h % 24 && 0 <= h % 24 < 24;
      assert g == 86400 * d + (3600 * (h % 24) + g % 3600);
      WholeDaysUnique(g, d, 3600 * (h % 24) + g % 3600);
    }
  }

  /** Whole days are unique: `d` days and a remainder below a day is `g / 86400`. */
  lemma WholeDaysUnique(g: int, d: int, r: int)
    requires 0 <= r < 86400 && g == 86400 * d + r
    ensures g / 86400 == d
  {
  }

  // =====================================================================
  // get_df_from_content, add_date_metrics
  // =====================================================================

  /** The columns `get_df_from_content` builds from the rows `create_df`
      found: one row per message that has `": "`, in transcript order, holding
      its date, its author, its body and the body's word count. */
  lemma ContentData(rows: seq<(string, string)>)
    ensures var data, keep := CreatedData(rows), SepMask(Msgs(rows));
      var kept := Filter(Msgs(rows), keep);
      WordsData(AuthoredData(data))
        == map["date" := Strs(Filter(Dates(rows), keep)), "msg" := Strs(Bodies(kept)),
               "author" := Strs(Authors(kept)), "words" := WordsColumn(Bodies(kept))]
  {
    var data, keep := CreatedData(rows), SepMask(Msgs(rows));
    var kept := Filter(Msgs(rows), keep);
    StrsRoundTrip(Msgs(rows));
    StrsRoundTrip(Bodies(kept));
    CreatedSelected(rows);
  }

  lemma CreatedSelected(rows: seq<(string, string)>)
    ensures var keep := SepMask(Msgs(rows));
      SelectRows(CreatedData(rows), keep)
        == map["date" := Strs(Filter(Dates(rows), keep)), "msg" := Strs(Filter(Msgs(rows), keep))]
  {
    var keep := SepMask(Msgs(rows));
    FilterStrs(Dates(rows), keep);
    FilterStrs(Msgs(rows), keep);
  }

  /** Every surviving body, put back behind its author and `": "`, is the
      message it came from, and the author holds no `": "`. */
  lemma AuthorsBodiesRebuild(msgs: seq<string>)
    ensures var kept := Filter(msgs, SepMask(msgs));
      forall k :: 0 <= k < |kept| ==>
        && Authors(kept)[k] + ": " + Bodies(kept)[k] == kept[k]
        && !Contains(Authors(kept)[k], ": ")
  {
    var kept := Filter(msgs, SepMask(msgs));
    FilterMarked(msgs, SepMask(msgs));
    forall k | 0 <= k < |kept|
      ensures Authors(kept)[k] + ": " + Bodies(kept)[k] == kept[k] && !Contains(Authors(kept)[k], ": ")
    {
      assert kept[k] in Filter(msgs, SepMask(msgs));
      var split := SplitAuthor(kept[k]);
      assert split.Some?;
      FirstSeparator(kept[k]);
    }
  }

  /** The text before the first `": "` holds no `": "`. */
  lemma FirstSeparator(m: string)
    requires Contains(m, ": ")
    ensures !Contains(SplitAuthor(m).value.0, ": ")
  {
    var p := FindFrom(m, ": ", 0).value;
    var a := m[..p];
    forall k | 0 <= k <= |a| ensures !OccursAt(a, ": ", k) {
      if k + 2 <= |a| {
        assert a[k..k + 2] == m[k..k + 2];
        assert !OccursAt(m, ": ", k);
      }
    }
    assert FindFrom(a, ": ", 0).None?;
  }

  /** A selection only keeps the rows its mask marks. */
  lemma {:induction false} FilterMarked(msgs: seq<string>, mask: seq<bool>)
    requires |msgs| == |mask|
    ensures forall m :: m in Filter(msgs, mask) ==> exists k :: 0 <= k < |msgs| && mask[k] && msgs[k] == m
  {
    if |msgs| > 0 {
      var n := |msgs| - 1;
      FilterMarked(msgs[..n], mask[..n]);
      forall m | m in Filter(msgs, mask) ensures exists k :: 0 <= k < |msgs| && mask[k] && msgs[k] == m {
        if m in Filter(msgs[..n], mask[..n]) {
          var k :| 0 <= k < n && mask[..n][k] && msgs[..n][k] == m;
          assert mask[k] && msgs[k] == m;
        } else {
          assert mask[n] && msgs[n] == m;
        }
      }
    }
  }

  /** The labels `get_df_from_content` ends with. */
  lemma PipelineColumns()
    ensures WithColumn(WithColumn(["date", "msg"], "author"), "words") == ["date", "msg", "author", "words"]
  {
    assert "author" !in ["date", "msg"];
    assert "words" !in ["date", "msg", "author"];
  }

  /** `get_df_from_content` after `read_stringio`: segment, split authors,
      count words. Fails when no message has `": "`. */
  method FrameFromLines(lines: seq<string>) returns (r: Result<Frame, PipelineError>)
    ensures r.Err? <==> NoSeparator(Msgs(Segmented(lines)))
    ensures r.Ok? ==>
      var rows := Segmented(lines);
      && fresh(r.value) && r.value.Valid()
      && r.value.columns == ["date", "msg", "author", "words"]
      && r.value.height == CountTrue(SepMask(Msgs(rows)))
      && r.value.data == WordsData(AuthoredData(CreatedData(rows)))
  {
    var df := CreateDf(lines);
    StrsRoundTrip(Msgs(Segmented(lines)));
    var authored := AddMsgAuthor(df);
    if authored.Err? {
      r := Err(authored.error);
      return;
    }
    var f := authored.value;
    PipelineColumns();
    var w := AddWordsByMsg(f);
    r := Ok(w);
  }

  /** `get_df_from_content(content)`. */
  method GetDfFromContent(content: string) returns (r: Result<Frame, PipelineError>)
    ensures r.Err? <==> NoSeparator(Msgs(Segmented(ReadStringIO(content))))
    ensures r.Ok? ==>
      var rows := Segmented(ReadStringIO(content));
      && fresh(r.value) && r.value.Valid()
      && r.value.columns == ["date", "msg", "author", "words"]
      && r.value.height == CountTrue(SepMask(Msgs(rows)))
      && r.value.data == WordsData(AuthoredData(CreatedData(rows)))
  {
    var stripped := ReadStringIO(content);
    r := FrameFromLines(stripped);
  }

  /** `add_date_metrics(df)`: only the calendar columns; the call of
      `add_started_conv` is commented out in the source. */
  method AddDateMetrics(df: Frame) returns (r: Result<Frame, PipelineError>)
    requires df.Valid() && "date" in df.data && AllTime(df.data["date"])
    ensures r.Err? <==> exists c :: c in DateFields && c in df.data
    ensures r.Ok? ==>
      && fresh(r.value) && r.value.Valid() && r.value.height == df.height
      && r.value.columns == DateInfoColumns(df.columns)
      && r.value.data == DateInfoData(df.data)
  {
    r := AddDateInfo(df);
  }
}
