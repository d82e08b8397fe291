/**
 * `store_unique_words`: load the prior words, merge the input into them,
 * sort, and write the paginated list; then what the written artifact gives
 * back when it is read as the prior state of the next run.
 */
module Pipeline {
  import opened Wrappers
  import opened Normalizer
  import opened Ordering
  import opened EntryPattern
  import opened StoreReader
  import opened Merger
  import opened Emitter

  /**
   * The outcome of one call: a `ZeroDivisionError` raised by
   * `math.ceil(n / 0)` before the output file is opened (so the old file is
   * left as it was), or the total word count and the lines written.
   */
  datatype StoreResult = ZeroDivisionError | Stored(total: nat, lines: seq<string>)

  /** What one call computes, given the input lines, the prior artifact and the column size. */
  function Run(input: seq<string>, prior: Option<seq<string>>, wordsPerColumn: int): StoreResult
  {
    if wordsPerColumn == 0 then ZeroDivisionError
    else
      var words := SortedWords(Merge(Loaded(prior), input));
      Stored(|words|, Render(words, wordsPerColumn))
  }

  /** Lines 100-104: every input line's accepted tokens are added to the set. */
  method MergeInput(existing: set<string>, input: seq<string>) returns (unique: set<string>)
    ensures unique == Merge(existing, input)
  {
    unique := existing;
    var i := 0;
    while i < |input|
      invariant 0 <= i <= |input|
      invariant unique == Merge(existing, input[..i])
    {
      var words := Split(input[i]);
      var cleaned := seq(|words|, j requires 0 <= j < |words| => Clean(words[j]));
      unique := unique + set w | w in cleaned && |w| > 2;
      assert input[..i + 1][..i] == input[..i];
      i := i + 1;
    }
    assert input[..|input|] == input;
  }

  /** Lines 120-122: the entry lines of the words at sorted indices `start..end`, appended to `out`. */
  method WriteEntries(out0: seq<string>, sorted: seq<string>, start: nat, end: nat) returns (out: seq<string>)
    requires start <= end <= |sorted|
    ensures out == out0 + Entries(sorted, start, end)
  {
    out := out0;
    var idx := start;
    while idx < end
      invariant start <= idx <= end
      invariant out == out0 + Entries(sorted, start, idx)
    {
      EntriesNext(sorted, start, idx);
      out := out + [EntryLine(idx + 1, sorted[idx])];
      idx := idx + 1;
    }
  }

  /** Lines 107-126: the page, column by column. */
  method WriteColumns(sorted: seq<string>, k: int) returns (out: seq<string>)
    requires k != 0
    ensures out == Render(sorted, k)
  {
    var numColumns := NumColumns(|sorted|, k);
    var total := |sorted|;
    out := [Header];
    var col := 0;
    while col < numColumns
      invariant 0 <= col <= Max(numColumns, 0)
      invariant out == [Header] + Columns(sorted, k, col)
    {
      out := out + [ColumnOpen, ColumnHeading(col + 1)];
      ColumnsNext(sorted, k, col);
      var start := col * k;
      var end := Min((col + 1) * k, total);
      out := WriteEntries(out, sorted, start, end);
      out := out + [ColumnClose];
      col := col + 1;
    }
    out := out + [Footer];
  }

  /** `store_unique_words(input_file, output_file, words_per_column)`. */
  method StoreUniqueWords(input: seq<string>, prior: Option<seq<string>>, wordsPerColumn: int)
    returns (r: StoreResult)
    ensures r == Run(input, prior, wordsPerColumn)
    ensures r.ZeroDivisionError? <==> wordsPerColumn == 0
    ensures r.Stored? ==> r.total == |Merge(Loaded(prior), input)|
  {
    var existing := LoadExistingWords(prior);
    var unique := MergeInput(existing, input);
    var sorted := SortedWords(unique);
    if wordsPerColumn == 0 {
      return ZeroDivisionError;
    }
    var out := WriteColumns(sorted, wordsPerColumn);
    r := Stored(|sorted|, out);
  }
}
