/**
  The regular expression `\{\{(.*)\}\}` of `Eve::replace`, as a declarative
  description of what a match is and a scanner that finds the matches of
  `replace_all`.

  The engine's `.` matches every character except the line feed, `.*` is
  greedy, and `replace_all` reports the leftmost match first and resumes the
  search right after it. So, searching from position `from`, the next match
  opens at the leftmost `{{` that has some `}}` after it on the same line, and
  closes at the LAST such `}}` of that line.
*/
module Pattern {
  import opened Common

  /** `{{` occurs at index `i` of `s`. */
  predicate OpensAt(s: string, i: int) {
    0 <= i && i + 1 < |s| && s[i] == '{' && s[i + 1] == '{'
  }

  /** `}}` occurs at index `j` of `s`. */
  predicate ClosesAt(s: string, j: int) {
    0 <= j && j + 1 < |s| && s[j] == '}' && s[j + 1] == '}'
  }

  /** `s[a..b]` holds no line feed, so `.*` can consume all of it. */
  predicate OnOneLine(s: string, a: int, b: int) {
    0 <= a <= b <= |s| && forall k :: a <= k < b ==> s[k] != '\n'
  }

  /** The pattern matches `s[i..j + 2]`: `{{` at `i`, `}}` at `j`, and a
      capture `s[i + 2..j]` without line feeds in between. */
  predicate IsMatchAt(s: string, i: int, j: int) {
    OpensAt(s, i) && i + 2 <= j && ClosesAt(s, j) && OnOneLine(s, i + 2, j)
  }

  /** A match found by the regex engine: `{{` at `open`, `}}` at `close`. The
      match covers `s[open..close + 2]` and captures `s[open + 2..close]`. */
  datatype Span = Span(open: nat, close: nat) {
    /** One past the last character the match covers. */
    function End(): nat { close + 2 }
  }

  /** No match starts at or after `from`. */
  ghost predicate NoMatchFrom(s: string, from: int) {
    forall i, j :: from <= i ==> !IsMatchAt(s, i, j)
  }

  /** `m` is the match a leftmost-first search with a greedy `.*` reports when
      it starts at `from`: no match starts earlier, and none from the same
      `{{` reaches further. */
  ghost predicate IsFirstMatch(s: string, from: int, m: Span) {
    && from <= m.open
    && IsMatchAt(s, m.open, m.close)
    && (forall i, j :: from <= i < m.open ==> !IsMatchAt(s, i, j))
    && (forall j :: m.close < j ==> !IsMatchAt(s, m.open, j))
  }

  /** The last `}}` at or after `k` that lies on the line `k` is on. */
  function LastClose(s: string, k: nat): (r: Option<nat>)
    requires k <= |s|
    ensures r.Some? ==> k <= r.value && r.value + 2 <= |s|
    decreases |s| - k
  {
    if k + 1 >= |s| || s[k] == '\n' then None
    else
      match LastClose(s, k + 1)
      case Some(j) => Some(j)
      case None => if ClosesAt(s, k) then Some(k) else None
  }

  /** `LastClose` finds a `}}` on the line, and no `}}` of that line lies
      beyond it. */
  lemma {:induction false} LastCloseSpec(s: string, k: nat)
    requires k <= |s|
    ensures var r := LastClose(s, k);
      && (r.Some? ==> ClosesAt(s, r.value) && OnOneLine(s, k, r.value))
      && (forall j :: ClosesAt(s, j) && OnOneLine(s, k, j) ==> r.Some? && j <= r.value)
    decreases |s| - k
  {
    if k + 1 < |s| && s[k] != '\n' {
      LastCloseSpec(s, k + 1);
      forall j | ClosesAt(s, j) && OnOneLine(s, k, j) && k < j
        ensures OnOneLine(s, k + 1, j)
      {
      }
    }
  }

  /** The next match of `replace_all` when its search resumes at `from`. */
  function FindMatch(s: string, from: nat): (r: Option<Span>)
    requires from <= |s|
    ensures r.Some? ==> from <= r.value.open && r.value.open + 2 <= r.value.close && r.value.End() <= |s|
    decreases |s| - from
  {
    if from + 1 >= |s| then None
    else if OpensAt(s, from) then
      match LastClose(s, from + 2)
      case Some(j) => Some(Span(from, j))
      case None => FindMatch(s, from + 1)
    else FindMatch(s, from + 1)
  }

  /** `FindMatch` agrees with the declarative description: it reports the
      leftmost-first greedy match, and reports none exactly when no match
      starts at or after `from`. */
  lemma {:induction false} FindMatchSpec(s: string, from: nat)
    requires from <= |s|
    ensures var r := FindMatch(s, from);
      && (r.Some? ==> IsFirstMatch(s, from, r.value))
      && (r.None? <==> NoMatchFrom(s, from))
    decreases |s| - from
  {
    if from + 1 < |s| {
      if OpensAt(s, from) {
        LastCloseSpec(s, from + 2);
        if LastClose(s, from + 2).None? {
          FindMatchSpec(s, from + 1);
        }
      } else {
        FindMatchSpec(s, from + 1);
      }
    }
  }

  /** A reported match starts with `{{` and ends with `}}`. */
  lemma FindMatchDelimits(s: string, from: nat)
    requires from <= |s|
    ensures var r := FindMatch(s, from);
      r.Some? ==> OpensAt(s, r.value.open) && ClosesAt(s, r.value.close)
  {
    FindMatchSpec(s, from);
  }

  /** The first match after a position is determined by the declarative
      description alone. */
  lemma FirstMatchUnique(s: string, from: int, m1: Span, m2: Span)
    requires IsFirstMatch(s, from, m1) && IsFirstMatch(s, from, m2)
    ensures m1 == m2
  {
  }

  /** Greediness: once a match has been found, the next one starts on a later
      line. Between the end of one match and the start of the next there is a
      line feed. */
  lemma NextMatchOnLaterLine(s: string, from: nat, m: Span, m2: Span)
    requires IsFirstMatch(s, from, m)
    requires IsMatchAt(s, m2.open, m2.close) && m.End() <= m2.open
    ensures !OnOneLine(s, m.End(), m2.open)
  {
    if OnOneLine(s, m.End(), m2.open) {
      forall k | m.open + 2 <= k < m2.close
        ensures s[k] != '\n'
      {
        if k < m.close {
          assert OnOneLine(s, m.open + 2, m.close);
        } else if k < m.End() {
          assert ClosesAt(s, m.close);
        } else if k < m2.open {
        } else if k < m2.open + 2 {
          assert OpensAt(s, m2.open);
        } else {
          assert OnOneLine(s, m2.open + 2, m2.close);
        }
      }
      assert IsMatchAt(s, m.open, m2.close);
      assert false;
    }
  }

  /** `t` is what follows the first `d` characters of `s`: the same fact as
      `s[d..] == t`, stated character by character. The search lemmas use
      this form because each step needs one character of each text, and the
      slice form makes the solver build the suffix as a new sequence at
      every step; `SuffixAtSlice` connects the two. */
  predicate SuffixAt(s: string, d: nat, t: string) {
    d + |t| == |s| && forall x :: 0 <= x < |t| ==> s[d + x] == t[x]
  }

  /** The character-by-character and the slice statement of a suffix
      agree. */
  lemma SuffixAtSlice(s: string, d: nat, t: string)
    requires d <= |s|
    ensures SuffixAt(s, d, t) <==> s[d..] == t
  {
    if SuffixAt(s, d, t) {
      assert forall x :: 0 <= x < |t| ==> s[d..][x] == t[x];
    }
  }

  /** Moves a search result `d` characters to the right. */
  function ShiftSpan(r: Option<Span>, d: nat): Option<Span> {
    match r
    case None => None
    case Some(m) => Some(Span(d + m.open, d + m.close))
  }

  /** A match depends only on the characters it covers: the matches of a
      suffix are those of the whole text, shifted. */
  lemma {:induction false} FindMatchShift(s: string, d: nat, t: string, k: nat)
    requires SuffixAt(s, d, t) && k <= |t|
    ensures FindMatch(s, d + k) == ShiftSpan(FindMatch(t, k), d)
    decreases |t| - k
  {
    if k + 1 < |t| {
      assert s[d + k] == t[k] && s[d + k + 1] == t[k + 1];
      if OpensAt(t, k) {
        LastCloseShift(s, d, t, k + 2);
        if LastClose(t, k + 2).None? {
          FindMatchShift(s, d, t, k + 1);
        }
      } else {
        FindMatchShift(s, d, t, k + 1);
      }
    }
  }

  lemma {:induction false} LastCloseShift(s: string, d: nat, t: string, k: nat)
    requires SuffixAt(s, d, t) && k <= |t|
    ensures LastClose(s, d + k) == if LastClose(t, k).Some? then Some(d + LastClose(t, k).value) else None
    decreases |t| - k
  {
    if k + 1 < |t| {
      assert s[d + k] == t[k] && s[d + k + 1] == t[k + 1];
      LastCloseShift(s, d, t, k + 1);
    }
  }

  /** `l` is the first line of `s`: `s` starts with `l` and a line feed.
      Stated character by character, like `SuffixAt` and for the same
      reason; `FirstLineSlice` and `FirstLineBreak` give the slice form. */
  predicate FirstLine(s: string, l: string) {
    |l| < |s| && s[|l|] == '\n' && forall x :: 0 <= x < |l| ==> s[x] == l[x]
  }

  /** Matches never cross a line feed: a search that starts on the first
      line reports that line's own match if it has one, and otherwise the
      match the search from the next line reports. */
  lemma {:induction false} FindMatchFirstLine(s: string, l: string, from: nat)
    requires FirstLine(s, l) && from <= |l|
    ensures FindMatch(s, from) == if FindMatch(l, from).Some? then FindMatch(l, from) else FindMatch(s, |l| + 1)
    decreases |l| - from
  {
    if from + 1 < |l| {
      assert s[from] == l[from] && s[from + 1] == l[from + 1];
      if OpensAt(l, from) {
        LastCloseFirstLine(s, l, from + 2);
        if LastClose(l, from + 2).None? {
          FindMatchFirstLine(s, l, from + 1);
        }
      } else {
        FindMatchFirstLine(s, l, from + 1);
      }
    } else if from + 1 == |l| {
      assert !OpensAt(s, from);
    }
  }

  lemma FirstLineSlice(s: string, l: string, a: nat, b: nat)
    requires FirstLine(s, l) && a <= b <= |l|
    ensures s[a..b] == l[a..b]
  {
  }

  /** The rest of the first line from `from`, then its line feed. */
  lemma FirstLineBreak(s: string, l: string, from: nat)
    requires FirstLine(s, l) && from <= |l|
    ensures s[from..|l| + 1] == l[from..] + "\n"
  {
    assert s[from..|l| + 1] == s[from..|l|] + [s[|l|]];
    assert s[from..|l|] == l[from..];
  }

  lemma {:induction false} LastCloseFirstLine(s: string, l: string, k: nat)
    requires FirstLine(s, l) && k <= |l|
    ensures LastClose(s, k) == LastClose(l, k)
    decreases |l| - k
  {
    if k < |l| {
      assert s[k] == l[k];
      assert ClosesAt(s, k) == ClosesAt(l, k);
      LastCloseFirstLine(s, l, k + 1);
    }
  }
}
