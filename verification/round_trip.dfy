/**
 * What a written artifact gives back when it is read as the prior state of
 * the next run: the entry lines in sorted order with serials 1..n, and
 * exactly the merged set of words.
 */
module RoundTrip {
  import opened Wrappers
  import opened Normalizer
  import opened Ordering
  import opened EntryPattern
  import opened StoreReader
  import opened Merger
  import opened Emitter
  import opened Pipeline

  /** Every word can be written on one entry line and read back. */
  predicate Storable(words: seq<string>)
  {
    forall i :: 0 <= i < |words| ==> words[i] != [] && '\n' !in words[i]
  }

  /** The words at sorted indices `lo..hi`, as a set. */
  function WordsIn(words: seq<string>, lo: nat, hi: nat): set<string>
    requires lo <= hi <= |words|
  {
    set i | lo <= i < hi :: words[i]
  }

  lemma WordsInNext(words: seq<string>, lo: nat, hi: nat)
    requires lo <= hi < |words|
    ensures WordsIn(words, lo, hi + 1) == WordsIn(words, lo, hi) + {words[hi]}
  {
    assert words[hi] in WordsIn(words, lo, hi + 1);
  }

  /** Every entry line matches the pattern. */
  lemma {:induction false} EntriesAllMatch(words: seq<string>, lo: nat, hi: nat)
    requires lo <= hi <= |words| && Storable(words)
    ensures EntryLinesOf(Entries(words, lo, hi)) == Entries(words, lo, hi)
    decreases hi - lo
  {
    if lo < hi {
      var front := Entries(words, lo, hi - 1);
      var line := EntryLine(hi, words[hi - 1]);
      EntriesAllMatch(words, lo, hi - 1);
      EntriesNext(words, lo, hi - 1);
      EntryLineRoundTrip(hi, words[hi - 1]);
      EntryLinesOfSnoc(front, line);
    }
  }

  /** The entry lines of the words at `lo..hi` read back as exactly those words. */
  lemma {:induction false} EntriesReadBack(words: seq<string>, lo: nat, hi: nat)
    requires lo <= hi <= |words| && Storable(words)
    ensures CapturedSet(Entries(words, lo, hi)) == WordsIn(words, lo, hi)
    decreases hi - lo
  {
    if lo < hi {
      var front := Entries(words, lo, hi - 1);
      var line := EntryLine(hi, words[hi - 1]);
      EntriesReadBack(words, lo, hi - 1);
      EntriesNext(words, lo, hi - 1);
      EntryLineRoundTrip(hi, words[hi - 1]);
      CapturedSetSnoc(front, line);
      WordsInNext(words, lo, hi - 1);
    } else {
      assert WordsIn(words, lo, hi) == {};
    }
  }

  /** The lines of one column take from the reader exactly its entry lines. */
  lemma BlockEntryLines(words: seq<string>, k: int, c: nat)
    requires k > 0 && c < NumColumns(|words|, k) && Storable(words)
    ensures EntryLinesOf(Columns(words, k, c + 1)) ==
              EntryLinesOf(Columns(words, k, c)) + Entries(words, c * k, Min((c + 1) * k, |words|))
  {
    ColumnsNext(words, k, c);
    var es := Entries(words, c * k, Min((c + 1) * k, |words|));
    var prefix := Columns(words, k, c);
    FrameLinesDoNotMatch();
    HeadingDoesNotMatch(c + 1);
    EntriesAllMatch(words, c * k, Min((c + 1) * k, |words|));
    Framed([ColumnOpen, ColumnHeading(c + 1)], es, [ColumnClose]);
    EntryLinesOfConcat(prefix, [ColumnOpen, ColumnHeading(c + 1)] + es + [ColumnClose]);
    assert prefix + [ColumnOpen, ColumnHeading(c + 1)] + es + [ColumnClose] ==
           prefix + ([ColumnOpen, ColumnHeading(c + 1)] + es + [ColumnClose]);
  }

  /** The first `c` columns hold the entry lines of the first `min(c * k, n)` words. */
  lemma {:induction false} ColumnsEntryLines(words: seq<string>, k: int, c: nat)
    requires k > 0 && c <= NumColumns(|words|, k) && Storable(words)
    ensures EntryLinesOf(Columns(words, k, c)) == Entries(words, 0, Min(c * k, |words|))
  {
    if c > 0 {
      ColumnLayout(|words|, k, c - 1);
      var lo: nat := ColumnStart(c - 1, k);
      var hi: nat := ColumnEnd(c - 1, k, |words|);
      assert Min((c - 1) * k, |words|) == lo;
      assert Min(c * k, |words|) == hi;
      ColumnsEntryLines(words, k, c - 1);
      BlockEntryLines(words, k, c - 1);
      EntriesSplit(words, 0, lo, hi);
    }
  }

  /**
   * Ordering and serial continuity: read in file order, the matching lines
   * are `<p>1. w1</p>`, `<p>2. w2</p>`, ... for the words in sorted order,
   * whatever the column boundaries.
   */
  lemma RenderEntryLines(words: seq<string>, k: int)
    requires k > 0 && Storable(words)
    ensures EntryLinesOf(Render(words, k)) == Entries(words, 0, |words|)
  {
    var cols := Columns(words, k, NumColumns(|words|, k));
    ColumnsEntryLines(words, k, NumColumns(|words|, k));
    FrameLinesDoNotMatch();
    Framed([Header], cols, [Footer]);
  }

  /** Reading a written page back gives exactly the words written. */
  lemma RenderReadBack(words: seq<string>, k: int)
    requires k > 0 && Storable(words)
    ensures CapturedSet(Render(words, k)) == WordsIn(words, 0, |words|)
  {
    RenderEntryLines(words, k);
    CapturedSetOfEntryLines(Render(words, k));
    EntriesReadBack(words, 0, |words|);
  }

  /** Every word of the merged set fits on one entry line. */
  lemma MergedStorable(input: seq<string>, prior: Option<seq<string>>)
    ensures Storable(SortedWords(Merge(Loaded(prior), input)))
  {
    var seed := Loaded(prior);
    var words := SortedWords(Merge(seed, input));
    LoadedWordsAreLines(prior);
    forall i | 0 <= i < |words|
      ensures words[i] != [] && '\n' !in words[i]
    {
      if words[i] !in seed {
        MergeAddsCanonical(seed, input, words[i]);
      }
    }
  }

  /**
   * Round trip: for a positive column size, loading the artifact a run
   * wrote gives back exactly the merged set, and the count returned is its
   * size.
   */
  lemma RunReadBack(input: seq<string>, prior: Option<seq<string>>, k: int)
    requires k > 0
    ensures Run(input, prior, k).Stored?
    ensures Loaded(Some(Run(input, prior, k).lines)) == Merge(Loaded(prior), input)
    ensures Run(input, prior, k).total == |Merge(Loaded(prior), input)|
  {
    var merged := Merge(Loaded(prior), input);
    var words := SortedWords(merged);
    MergedStorable(input, prior);
    RenderReadBack(words, k);
    SortedWordsIn(merged);
  }

  /** The sorted list of a set, read back as a set, is that set. */
  lemma SortedWordsIn(s: set<string>)
    ensures WordsIn(SortedWords(s), 0, |SortedWords(s)|) == s
  {
    var words := SortedWords(s);
    forall x | x in s ensures x in WordsIn(words, 0, |words|) {
      var i :| 0 <= i < |words| && words[i] == x;
    }
  }

  /** The entry lines of a run's artifact are the sorted words with serials 1..n. */
  lemma RunEntryLines(input: seq<string>, prior: Option<seq<string>>, k: int)
    requires k > 0
    ensures Run(input, prior, k).Stored?
    ensures EntryLinesOf(Run(input, prior, k).lines) ==
              Entries(SortedWords(Merge(Loaded(prior), input)), 0, Run(input, prior, k).total)
  {
    MergedStorable(input, prior);
    RenderEntryLines(SortedWords(Merge(Loaded(prior), input)), k);
  }

  /**
   * Incremental accumulation: a run on `b` whose prior state is the
   * artifact of a run on `a` ends with the prior words of the first run and
   * the words of both inputs.
   */
  lemma Accumulate(a: seq<string>, b: seq<string>, prior: Option<seq<string>>, k: int)
    requires k > 0
    ensures Run(a, prior, k).Stored?
    ensures Merge(Loaded(Some(Run(a, prior, k).lines)), b) == Merge(Loaded(prior), a + b)
    ensures Merge(Loaded(prior), a + b) == Loaded(prior) + Merge({}, a) + Merge({}, b)
  {
    RunReadBack(a, prior, k);
    MergeAppend(Loaded(prior), a, b);
    MergeSeed(Loaded(prior), a + b);
    MergeSeed(Merge({}, a), b);
    MergeAppend({}, a, b);
  }

  /** No input and no prior file: count 0 and only the page wrapper. */
  lemma RunEmpty(k: int)
    requires k != 0
    ensures Run([], None, k) == Stored(0, [Header, Footer])
  {
    RenderWrapperOnly([], k);
  }

  /**
   * A negative column size writes no column at all, so the artifact loses
   * every word although the count returned is the full one.
   */
  lemma RunNegativeColumnSize(input: seq<string>, prior: Option<seq<string>>, k: int)
    requires k < 0
    ensures Run(input, prior, k) == Stored(|Merge(Loaded(prior), input)|, [Header, Footer])
    ensures Loaded(Some(Run(input, prior, k).lines)) == {}
  {
    var words := SortedWords(Merge(Loaded(prior), input));
    RenderWrapperOnly(words, k);
    FrameLinesDoNotMatch();
    Framed([Header], [], [Footer]);
    assert [Header] + [] + [Footer] == [Header, Footer];
  }
}
