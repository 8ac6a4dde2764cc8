/** `clean_stringIO` and `read_stringio` (utils.py): the text of an export is
    freed of the commas some locales put after the date, then cut into
    stripped lines. */
module Sanitize {
  import opened Text

  /** The substitution `re.sub(r"(?<=\/[0-9]{2}),", '', content)` deletes the comma
      at `i` exactly when the ORIGINAL text has `/` and two ASCII digits right
      before it: the look-behind is matched against the input, not the output. */
  predicate RemovedAt(s: string, i: nat) {
    && 3 <= i < |s|
    && s[i] == ','
    && s[i - 3] == '/' && IsAsciiDigit(s[i - 2]) && IsAsciiDigit(s[i - 1])
  }

  /** The output of the substitution for the characters of `s` from `i` on. */
  function CleanFrom(s: string, i: nat): string
    requires i <= |s|
    decreases |s| - i
  {
    if i == |s| then ""
    else (if RemovedAt(s, i) then "" else [s[i]]) + CleanFrom(s, i + 1)
  }

  /** `clean_stringIO(content)`. */
  function CleanStringIO(content: string): string {
    CleanFrom(content, 0)
  }

  /** The positions from `i` on that the substitution keeps, ascending. */
  function KeptFrom(s: string, i: nat): seq<nat>
    requires i <= |s|
    decreases |s| - i
  {
    if i == |s| then []
    else (if RemovedAt(s, i) then [] else [i]) + KeptFrom(s, i + 1)
  }

  predicate StrictlyAscending(idx: seq<nat>) {
    forall a, b :: 0 <= a < b < |idx| ==> idx[a] < idx[b]
  }

  lemma {:induction false} KeptFromRange(s: string, i: nat)
    requires i <= |s|
    ensures forall k :: 0 <= k < |KeptFrom(s, i)| ==> i <= KeptFrom(s, i)[k] < |s|
    ensures StrictlyAscending(KeptFrom(s, i))
    decreases |s| - i
  {
    if i < |s| {
      KeptFromRange(s, i + 1);
      var head: seq<nat> := if RemovedAt(s, i) then [] else [i];
      assert KeptFrom(s, i) == head + KeptFrom(s, i + 1);
    }
  }

  lemma {:induction false} KeptFromMembers(s: string, i: nat)
    requires i <= |s|
    ensures forall j :: i <= j < |s| ==> (j in KeptFrom(s, i) <==> !RemovedAt(s, j))
    decreases |s| - i
  {
    if i < |s| {
      KeptFromMembers(s, i + 1);
      KeptFromRange(s, i + 1);
      var head: seq<nat> := if RemovedAt(s, i) then [] else [i];
      var idx := KeptFrom(s, i + 1);
      assert KeptFrom(s, i) == head + idx;
      assert i !in idx;
      forall j | i < j < |s| ensures j in KeptFrom(s, i) <==> !RemovedAt(s, j) {
        assert j !in head;
      }
    }
  }

  lemma {:induction false} CleanFromLength(s: string, i: nat)
    requires i <= |s|
    ensures |CleanFrom(s, i)| == |KeptFrom(s, i)|
    decreases |s| - i
  {
    if i < |s| {
      CleanFromLength(s, i + 1);
    }
  }

  /** Position `k` of the output is the character at the `k`-th kept position. */
  lemma {:induction false} CleanFromAt(s: string, i: nat, k: nat)
    requires i <= |s| && k < |KeptFrom(s, i)| == |CleanFrom(s, i)| && KeptFrom(s, i)[k] < |s|
    ensures CleanFrom(s, i)[k] == s[KeptFrom(s, i)[k]]
    decreases |s| - i
  {
    var c, p := CleanFrom(s, i), KeptFrom(s, i);
    var r, idx := CleanFrom(s, i + 1), KeptFrom(s, i + 1);
    if RemovedAt(s, i) {
      assert c == r && p == idx;
      CleanFromAt(s, i + 1, k);
    } else if k == 0 {
      assert c[0] == s[i] && p[0] == i;
    } else {
      assert c[k] == r[k - 1] && p[k] == idx[k - 1];
      CleanFromAt(s, i + 1, k - 1);
    }
  }

  lemma CleanFromIsSelection(s: string, i: nat)
    requires i <= |s|
    ensures |CleanFrom(s, i)| == |KeptFrom(s, i)|
    ensures StrictlyAscending(KeptFrom(s, i))
    ensures forall k :: 0 <= k < |KeptFrom(s, i)| ==>
      i <= KeptFrom(s, i)[k] < |s| && CleanFrom(s, i)[k] == s[KeptFrom(s, i)[k]]
    ensures forall j :: i <= j < |s| ==> (j in KeptFrom(s, i) <==> !RemovedAt(s, j))
  {
    KeptFromRange(s, i);
    KeptFromMembers(s, i);
    CleanFromLength(s, i);
    forall k | 0 <= k < |KeptFrom(s, i)| ensures CleanFrom(s, i)[k] == s[KeptFrom(s, i)[k]] {
      assert KeptFrom(s, i)[k] < |s|;
      CleanFromAt(s, i, k);
    }
  }

  /** `clean_stringIO` deletes exactly the commas preceded in the input by `/`
      and two digits, and keeps every other character, in order: its output is
      the input read at the ascending kept positions. */
  lemma CleanStringIOIsSelection(content: string)
    ensures var r, idx := CleanStringIO(content), KeptFrom(content, 0);
      && |r| == |idx|
      && StrictlyAscending(idx)
      && (forall k :: 0 <= k < |idx| ==> idx[k] < |content| && r[k] == content[idx[k]])
      && (forall j :: 0 <= j < |content| ==> (j in idx <==> !RemovedAt(content, j)))
  {
    CleanFromIsSelection(content, 0);
  }

  /** The substitution is not idempotent: in `/12,,` only the first comma has
      `/` and two digits before it, and a second pass removes the other one. */
  lemma CleanStringIONotIdempotent()
    ensures CleanStringIO("/12,,") == "/12,"
    ensures CleanStringIO(CleanStringIO("/12,,")) == "/12"
  {
    assert RemovedAt("/12,,", 3) && !RemovedAt("/12,,", 4);
    assert RemovedAt("/12,", 3);
  }

  /** `read_stringio(content)`: clean, split on `\n`, strip every piece. */
  function ReadStringIO(content: string): seq<string> {
    var pieces := Split(CleanStringIO(content), '\n');
    seq(|pieces|, k requires 0 <= k < |pieces| => Strip(pieces[k]))
  }

  /** Line `k` of `read_stringio` is piece `k` of the cleaned text with the
      surrounding whitespace, and only that, removed; it holds no `\n`. */
  lemma ReadStringIOLine(content: string, k: nat)
    requires k < |Split(CleanStringIO(content), '\n')|
    ensures var piece := Split(CleanStringIO(content), '\n')[k];
      var line, i := Strip(piece), |piece| - |StripLeft(piece)|;
      && ReadStringIO(content)[k] == line
      && '\n' !in line
      && i + |line| <= |piece| && line == piece[i..i + |line|]
      && AllSpace(piece[..i]) && AllSpace(piece[i + |line|..])
      && Trimmed(line)
  {
    var piece := Split(CleanStringIO(content), '\n')[k];
    SplitPieceFree(CleanStringIO(content), '\n', k);
    assert ReadStringIO(content)[k] == Strip(piece);
    StripIsTrim(piece);
  }

  /** `read_stringio` yields one line per `\n`-separated piece of the cleaned
      text, and the pieces join back to that text. */
  lemma ReadStringIOLines(content: string)
    ensures var text := CleanStringIO(content);
      && Join(Split(text, '\n'), '\n') == text
      && |ReadStringIO(content)| == |Split(text, '\n')| == Count(text, '\n') + 1
  {
    JoinSplit(CleanStringIO(content), '\n');
  }
}
