/**
 * `load_existing_words`: the words recovered from a previously written
 * artifact.  The artifact is given as the lines a text-mode read yields, or
 * `None` when the file does not exist.
 */
module StoreReader {
  import opened Wrappers
  import opened EntryPattern

  /** The words a matching line contributes: its captured text, or nothing. */
  function Captured(line: string): set<string>
  {
    match SearchEntry(line)
    case Some(w) => {w}
    case None => {}
  }

  /** The set the reader has built after the lines `lines`. */
  function CapturedSet(lines: seq<string>): set<string>
  {
    if lines == [] then {}
    else CapturedSet(lines[..|lines| - 1]) + Captured(lines[|lines| - 1])
  }

  /** The lines the reader takes a word from, in file order. */
  function EntryLinesOf(lines: seq<string>): seq<string>
  {
    if lines == [] then []
    else
      var last := lines[|lines| - 1];
      EntryLinesOf(lines[..|lines| - 1]) + if SearchEntry(last).Some? then [last] else []
  }

  /** The result of `load_existing_words` on a file that is absent (`None`) or holds `lines`. */
  function Loaded(prior: Option<seq<string>>): set<string>
  {
    match prior
    case None => {}
    case Some(lines) => CapturedSet(lines)
  }

  /** Some line of `lines` matches with `w` as its captured text. */
  ghost predicate Recoverable(lines: seq<string>, w: string)
  {
    exists i :: 0 <= i < |lines| && SearchEntry(lines[i]) == Some(w)
  }

  /** A word is loaded exactly when some line's match captures it. */
  lemma {:induction false} CapturedSetMembers(lines: seq<string>, w: string)
    ensures w in CapturedSet(lines) <==> Recoverable(lines, w)
    decreases |lines|
  {
    if lines != [] {
      var front := lines[..|lines| - 1];
      var last := lines[|lines| - 1];
      CapturedSetMembers(front, w);
      if Recoverable(front, w) {
        var i :| 0 <= i < |front| && SearchEntry(front[i]) == Some(w);
        assert lines[i] == front[i];
      }
      if Recoverable(lines, w) && SearchEntry(last) != Some(w) {
        var i :| 0 <= i < |lines| && SearchEntry(lines[i]) == Some(w);
        assert front[i] == lines[i];
      }
    }
  }

  /** Every loaded word is non-empty and has no newline. */
  lemma LoadedWordsAreLines(prior: Option<seq<string>>)
    ensures forall w :: w in Loaded(prior) ==> w != [] && '\n' !in w
  {
    if prior.Some? {
      forall w | w in Loaded(prior) ensures w != [] && '\n' !in w {
        CapturedSetMembers(prior.value, w);
      }
    }
  }

  lemma {:induction false} CapturedSetConcat(a: seq<string>, b: seq<string>)
    ensures CapturedSet(a + b) == CapturedSet(a) + CapturedSet(b)
    decreases |b|
  {
    if b != [] {
      assert (a + b)[..|a + b| - 1] == a + b[..|b| - 1];
      CapturedSetConcat(a, b[..|b| - 1]);
    } else {
      assert a + b == a;
    }
  }

  lemma {:induction false} EntryLinesOfConcat(a: seq<string>, b: seq<string>)
    ensures EntryLinesOf(a + b) == EntryLinesOf(a) + EntryLinesOf(b)
    decreases |b|
  {
    if b != [] {
      assert (a + b)[..|a + b| - 1] == a + b[..|b| - 1];
      EntryLinesOfConcat(a, b[..|b| - 1]);
    } else {
      assert a + b == a;
    }
  }

  lemma EntryLinesOfSnoc(lines: seq<string>, line: string)
    ensures EntryLinesOf(lines + [line]) ==
              EntryLinesOf(lines) + if SearchEntry(line).Some? then [line] else []
  {
    assert (lines + [line])[..|lines|] == lines;
  }

  lemma CapturedSetSnoc(lines: seq<string>, line: string)
    ensures CapturedSet(lines + [line]) == CapturedSet(lines) + Captured(line)
  {
    assert (lines + [line])[..|lines|] == lines;
  }

  /** One more line read: the set grows by the line's group, if the line matches. */
  lemma CapturedSetStep(lines: seq<string>, i: nat, m: Option<string>)
    requires i < |lines| && m == SearchEntry(lines[i])
    ensures CapturedSet(lines[..i + 1]) == CapturedSet(lines[..i]) + (if m.Some? then {m.value} else {})
  {
    assert lines[..i + 1] == lines[..i] + [lines[i]];
    CapturedSetSnoc(lines[..i], lines[i]);
  }

  /** Non-matching lines around a block of lines change neither what is read nor which lines match. */
  lemma Framed(before: seq<string>, body: seq<string>, after: seq<string>)
    requires forall j :: 0 <= j < |before| ==> SearchEntry(before[j]).None?
    requires forall j :: 0 <= j < |after| ==> SearchEntry(after[j]).None?
    ensures EntryLinesOf(before + body + after) == EntryLinesOf(body)
    ensures CapturedSet(before + body + after) == CapturedSet(body)
  {
    NoneMatch(before);
    NoneMatch(after);
    EntryLinesOfConcat(before + body, after);
    EntryLinesOfConcat(before, body);
    CapturedSetConcat(before + body, after);
    CapturedSetConcat(before, body);
  }

  lemma {:induction false} NoneMatch(lines: seq<string>)
    requires forall j :: 0 <= j < |lines| ==> SearchEntry(lines[j]).None?
    ensures EntryLinesOf(lines) == [] && CapturedSet(lines) == {}
    decreases |lines|
  {
    if lines != [] {
      NoneMatch(lines[..|lines| - 1]);
    }
  }

  /** Lines that do not match contribute nothing: only the entry lines matter. */
  lemma {:induction false} CapturedSetOfEntryLines(lines: seq<string>)
    ensures CapturedSet(EntryLinesOf(lines)) == CapturedSet(lines)
    decreases |lines|
  {
    if lines != [] {
      var front := lines[..|lines| - 1];
      var last := lines[|lines| - 1];
      CapturedSetOfEntryLines(front);
      var tail := if SearchEntry(last).Some? then [last] else [];
      CapturedSetConcat(EntryLinesOf(front), tail);
      if tail != [] {
        assert [last][..0] == [];
        assert CapturedSet([last]) == CapturedSet([]) + Captured(last);
      }
    }
  }

  /** `load_existing_words`. */
  method LoadExistingWords(prior: Option<seq<string>>) returns (existing: set<string>)
    ensures existing == Loaded(prior)
    ensures prior.None? ==> existing == {}
    ensures forall w :: w in existing ==> w != [] && '\n' !in w
  {
    existing := {};
    if prior.Some? {
      var lines := prior.value;
      var i := 0;
      while i < |lines|
        invariant 0 <= i <= |lines|
        invariant existing == CapturedSet(lines[..i])
      {
        var m := SearchEntry(lines[i]);
        if m.Some? {
          existing := existing + {m.value};
        }
        CapturedSetStep(lines, i, m);
        i := i + 1;
      }
      assert lines[..|lines|] == lines;
    }
    LoadedWordsAreLines(prior);
  }
}
