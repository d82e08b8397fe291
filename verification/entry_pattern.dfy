/**
 * The one regular expression the reader uses, `<p>\d+\. (.+)</p>`, applied
 * with `re.search` and read back through `group(1)`: a dedicated matcher for
 * exactly this pattern.  `.` matches any character except a newline; `\d` is
 * taken to be an ASCII digit.
 */
module EntryPattern {
  import opened Wrappers
  import opened Decimal

  /**
   * The pattern matches `s` from index `i` with `w` as its captured group:
   * `<p>`, at least one digit, `. `, then `w` (non-empty, without a newline),
   * then `</p>`.  The digits end at `d`.
   */
  ghost predicate EntryShape(s: string, i: nat, d: nat, w: string)
  {
    i + 3 < d && d + 6 + |w| <= |s| &&
    OpenAt(s, i) &&
    (forall k :: i + 3 <= k < d ==> IsDigit(s[k])) &&
    DotSpaceAt(s, d) &&
    s[d + 2..d + 2 + |w|] == w &&
    CloseAt(s, d + 2 + |w|) &&
    w != [] && '\n' !in w
  }

  /** Some way of matching the pattern at `i` captures `w`. */
  ghost predicate EntryAt(s: string, i: nat, w: string)
  {
    exists d :: EntryShape(s, i, d, w)
  }

  /** End of the run of digits that starts at `i`. */
  function DigitRunEnd(s: string, i: nat): (j: nat)
    requires i <= |s|
    ensures i <= j <= |s|
    ensures forall k :: i <= k < j ==> IsDigit(s[k])
    ensures j < |s| ==> !IsDigit(s[j])
    decreases |s| - i
  {
    if i < |s| && IsDigit(s[i]) then DigitRunEnd(s, i + 1) else i
  }

  /** Index of the first newline at or after `i`, or `|s|`: how far `.+` can reach. */
  function LineEnd(s: string, i: nat): (j: nat)
    requires i <= |s|
    ensures i <= j <= |s|
    ensures forall k :: i <= k < j ==> s[k] != '\n'
    ensures j < |s| ==> s[j] == '\n'
    decreases |s| - i
  {
    if i < |s| && s[i] != '\n' then LineEnd(s, i + 1) else i
  }

  /** `<p>` starts at `i`. */
  predicate OpenAt(s: string, i: int)
  {
    0 <= i && i + 3 <= |s| && s[i] == '<' && s[i + 1] == 'p' && s[i + 2] == '>'
  }

  /** `. ` starts at `d`. */
  predicate DotSpaceAt(s: string, d: int)
  {
    0 <= d && d + 2 <= |s| && s[d] == '.' && s[d + 1] == ' '
  }

  /** `</p>` starts at `e`. */
  predicate CloseAt(s: string, e: int)
  {
    0 <= e && e + 4 <= |s| && s[e] == '<' && s[e + 1] == '/' && s[e + 2] == 'p' && s[e + 3] == '>'
  }

  /**
   * The largest `e` in `lo..hi` at which `</p>` starts: where the greedy
   * `(.+)` stops after backtracking.
   */
  function LastClose(s: string, lo: int, hi: int): (r: Option<nat>)
    ensures r.Some? ==> lo <= r.value <= hi && CloseAt(s, r.value)
    ensures r.Some? ==> forall e :: r.value < e <= hi ==> !CloseAt(s, e)
    ensures r.None? ==> forall e :: lo <= e <= hi ==> !CloseAt(s, e)
    decreases hi - lo
  {
    if hi < lo then None
    else if CloseAt(s, hi) then Some(hi)
    else LastClose(s, lo, hi - 1)
  }

  /** The pattern anchored at `i`, with the greedy capture a backtracking matcher takes. */
  function MatchAt(s: string, i: nat): (r: Option<string>)
    ensures r.Some? ==> EntryAt(s, i, r.value)
    ensures r.Some? ==> r.value != [] && '\n' !in r.value
  {
    if !OpenAt(s, i) then None
    else
      var d := DigitRunEnd(s, i + 3);
      if d == i + 3 || !DotSpaceAt(s, d) then None
      else
        var st := d + 2;
        var m := LineEnd(s, st);
        match LastClose(s, st + 1, m - 4)
        case None => None
        case Some(e) =>
          var w := s[st..e];
          assert '\n' !in w by {
            forall k | 0 <= k < |w| ensures w[k] != '\n' { assert w[k] == s[st + k]; }
          }
          assert EntryShape(s, i, d, w);
          Some(w)
  }

  /** Greedy and complete: wherever the pattern can match, MatchAt finds the longest capture. */
  lemma MatchAtComplete(s: string, i: nat, w: string)
    requires EntryAt(s, i, w)
    ensures MatchAt(s, i).Some? && |w| <= |MatchAt(s, i).value|
  {
    var d: nat :| EntryShape(s, i, d, w);
    var dr := DigitRunEnd(s, i + 3);
    assert dr == d;
    var st := d + 2;
    var m := LineEnd(s, st);
    assert forall k :: st <= k < st + |w| + 4 ==> s[k] != '\n' by {
      forall k | st <= k < st + |w| + 4 ensures s[k] != '\n' {
        if k < st + |w| {
          assert s[st..st + |w|][k - st] == s[k];
        }
      }
    }
    assert m >= st + |w| + 4;
    assert CloseAt(s, st + |w|);
  }

  /** `re.search`: the leftmost match at or after `i`. */
  function SearchFrom(s: string, i: nat): (r: Option<string>)
    ensures r.Some? ==> r.value != [] && '\n' !in r.value
    decreases |s| - i, 1
  {
    if i >= |s| then None else TryAt(s, i)
  }

  /** The match at `i` if there is one, otherwise the search goes on from `i + 1`. */
  function TryAt(s: string, i: nat): (r: Option<string>)
    requires i < |s|
    ensures r.Some? ==> r.value != [] && '\n' !in r.value
    decreases |s| - i, 0
  {
    match MatchAt(s, i)
    case Some(w) => Some(w)
    case None => SearchFrom(s, i + 1)
  }

  /** Where the anchored matcher fails, no instance of the pattern starts. */
  lemma NoEntryWhereNoMatch(s: string, i: nat)
    ensures MatchAt(s, i).None? ==> forall w :: !EntryAt(s, i, w)
  {
    forall w | EntryAt(s, i, w) ensures MatchAt(s, i).Some? {
      MatchAtComplete(s, i, w);
    }
  }

  /** No instance of the pattern starts at any position in `lo..hi`. */
  ghost predicate NoEntryBetween(s: string, lo: nat, hi: nat)
  {
    forall k, w :: lo <= k < hi ==> !EntryAt(s, k, w)
  }

  lemma NoEntryExtend(s: string, i: nat, j: nat)
    requires MatchAt(s, i).None? && NoEntryBetween(s, i + 1, j)
    ensures NoEntryBetween(s, i, j)
  {
    NoEntryWhereNoMatch(s, i);
    forall k, w | i <= k < j ensures !EntryAt(s, k, w) {
      if k > i {
        assert i + 1 <= k < j;
      }
    }
  }

  /**
   * The search returns the match at the leftmost position at or after `i`
   * where an instance of the pattern starts.
   */
  lemma {:induction false} SearchFromLeftmost(s: string, i: nat)
    requires SearchFrom(s, i).Some?
    ensures exists j :: i <= j < |s| && MatchAt(s, j) == SearchFrom(s, i) && NoEntryBetween(s, i, j)
    decreases |s| - i
  {
    assert SearchFrom(s, i) == TryAt(s, i);
    if MatchAt(s, i).None? {
      assert SearchFrom(s, i) == SearchFrom(s, i + 1);
      SearchFromLeftmost(s, i + 1);
      var j :| i + 1 <= j < |s| && MatchAt(s, j) == SearchFrom(s, i + 1) && NoEntryBetween(s, i + 1, j);
      NoEntryExtend(s, i, j);
    } else {
      assert NoEntryBetween(s, i, i);
    }
  }

  /**
   * `re.search(r'<p>\d+\. (.+)</p>', line)` followed by `group(1)`: `None`
   * when the line does not match.
   */
  function SearchEntry(line: string): (r: Option<string>)
    ensures r.Some? ==> r.value != [] && '\n' !in r.value
  {
    SearchFrom(line, 0)
  }

  /**
   * Soundness: a captured word is the greedy group of the leftmost instance
   * of the pattern in the line.
   */
  lemma SearchEntrySound(line: string)
    requires SearchEntry(line).Some?
    ensures exists i :: 0 <= i < |line| && EntryAt(line, i, SearchEntry(line).value) &&
                        MatchAt(line, i) == SearchEntry(line) && NoEntryBetween(line, 0, i)
  {
    SearchFromLeftmost(line, 0);
  }

  lemma {:induction false} SearchFromComplete(s: string, j: nat, i: nat, w: string)
    requires j <= i && EntryAt(s, i, w)
    ensures SearchFrom(s, j).Some?
    decreases i - j
  {
    assert j < |s| by { var d: nat :| EntryShape(s, i, d, w); }
    assert SearchFrom(s, j) == TryAt(s, j);
    if j == i {
      MatchAtComplete(s, i, w);
    } else if MatchAt(s, j).None? {
      SearchFromComplete(s, j + 1, i, w);
    }
  }

  /** A line that contains an instance of the pattern anywhere yields a word. */
  lemma SearchEntryComplete(line: string, i: nat, w: string)
    requires EntryAt(line, i, w)
    ensures SearchEntry(line).Some?
  {
    SearchFromComplete(line, 0, i, w);
  }

  /** Every matching line contains the letter `p` (of its `<p>`). */
  lemma MatchNeedsP(line: string)
    requires SearchEntry(line).Some?
    ensures 'p' in line
  {
    var w := SearchEntry(line).value;
    SearchEntrySound(line);
    var i :| 0 <= i < |line| && EntryAt(line, i, w) && MatchAt(line, i) == SearchEntry(line) && NoEntryBetween(line, 0, i);
    var d: nat :| EntryShape(line, i, d, w);
  }

  /** A line without the letter `p` never matches. */
  lemma NoMatchWithoutP(line: string)
    requires 'p' !in line
    ensures SearchEntry(line) == None
  {
    if SearchEntry(line).Some? {
      MatchNeedsP(line);
    }
  }

  /**
   * A line that is exactly `<p>`, digits, `. `, `w`, `</p>` and a newline
   * yields `w`.
   */
  lemma SearchEntryOfEntry(s: string, d: nat, w: string)
    requires EntryShape(s, 0, d, w)
    requires |s| == d + 7 + |w| && s[|s| - 1] == '\n'
    ensures SearchEntry(s) == Some(w)
  {
    var st := d + 2;
    assert DigitRunEnd(s, 3) == d;
    assert forall k :: st <= k < st + |w| ==> s[k] != '\n' by {
      forall k | st <= k < st + |w| ensures s[k] != '\n' {
        assert s[st..st + |w|][k - st] == s[k];
      }
    }
    assert LineEnd(s, st) == st + |w| + 4;
    assert LastClose(s, st + 1, st + |w|) == Some(st + |w|);
    assert MatchAt(s, 0) == Some(w);
    assert SearchFrom(s, 0) == TryAt(s, 0);
  }
}
