/**
 * The lines `store_unique_words` writes: the page wrapper, one `<div>` per
 * column with a `Column n` heading, and one `<p>serial. word</p>` line per
 * word, serials running 1..n across all columns.  Each line keeps the
 * newline it is written with; the closing wrapper has none.
 */
module Emitter {
  import opened Wrappers
  import opened Decimal
  import opened EntryPattern

  const Header: string := "<html><body>\n"
  const ColumnOpen: string := "<div style=\"float:left; width:50%;\">\n"
  const ColumnClose: string := "</div>\n"
  const Footer: string := "</body></html>"

  function ColumnHeading(c: nat): string
  {
    "<h2>Column " + DecimalString(c) + "</h2>\n"
  }

  function EntryLine(serial: nat, w: string): string
  {
    "<p>" + DecimalString(serial) + ". " + w + "</p>\n"
  }

  function Min(a: int, b: int): int { if a <= b then a else b }

  function Max(a: int, b: int): int { if a <= b then b else a }

  /** `math.ceil(n / k)`, as an exact integer ceiling. */
  function NumColumns(n: nat, k: int): (r: int)
    requires k != 0
    ensures k > 0 ==> 0 <= r && n <= r * k && (r > 0 ==> (r - 1) * k < n)
    ensures k < 0 ==> r <= 0 && r * k <= n < (r - 1) * k
  {
    if k > 0 then
      var q := (n + k - 1) / k;
      assert n + k - 1 == q * k + (n + k - 1) % k;
      q
    else
      var q := n / -k;
      assert n == q * -k + n % -k;
      -q
  }

  /** `start_idx` of column `c` (0-based). */
  function ColumnStart(c: nat, k: int): int { c * k }

  /** `end_idx` of column `c` (0-based), exclusive. */
  function ColumnEnd(c: nat, k: int, n: nat): int { Min((c + 1) * k, n) }

  /** Multiplying by a positive column size keeps the order: the nonlinear step ColumnLayout needs. */
  lemma MulLeft(a: int, b: int, k: int)
    requires k > 0 && a <= b
    ensures a * k <= b * k
  {
  }

  /**
   * The column ranges are non-empty, at most `k` long, contiguous, and
   * together cover `0..n`; only the last one may be shorter than `k`.
   */
  lemma ColumnLayout(n: nat, k: int, c: nat)
    requires k > 0 && c < NumColumns(n, k)
    ensures 0 <= ColumnStart(c, k) < ColumnEnd(c, k, n) <= n
    ensures ColumnEnd(c, k, n) - ColumnStart(c, k) <= k
    ensures c == 0 ==> ColumnStart(c, k) == 0
    ensures c + 1 < NumColumns(n, k) ==>
              ColumnEnd(c, k, n) == ColumnStart(c + 1, k) && ColumnEnd(c, k, n) - ColumnStart(c, k) == k
    ensures c + 1 == NumColumns(n, k) ==> ColumnEnd(c, k, n) == n
  {
    var r := NumColumns(n, k);
    MulLeft(c, r - 1, k);
    if c + 1 < r {
      MulLeft(c + 2, r, k);
      assert (c + 2) * k == (c + 1) * k + k;
    } else {
      assert (c + 1) * k >= n;
    }
  }

  /** The entry lines of the words at sorted indices `lo..hi`, numbered from `lo + 1`. */
  function Entries(words: seq<string>, lo: nat, hi: nat): (r: seq<string>)
    requires lo <= hi <= |words|
    ensures |r| == hi - lo
  {
    seq(hi - lo, j requires 0 <= j < hi - lo => EntryLine(lo + j + 1, words[lo + j]))
  }

  lemma EntriesSplit(words: seq<string>, lo: nat, mid: nat, hi: nat)
    requires lo <= mid <= hi <= |words|
    ensures Entries(words, lo, hi) == Entries(words, lo, mid) + Entries(words, mid, hi)
  {
  }

  /** The lines of column `c` (0-based): its `<div>`, heading, entries and `</div>`. */
  function Block(words: seq<string>, k: int, c: nat): seq<string>
    requires k > 0 && c < NumColumns(|words|, k)
  {
    ColumnLayout(|words|, k, c);
    [ColumnOpen, ColumnHeading(c + 1)] + Entries(words, ColumnStart(c, k), ColumnEnd(c, k, |words|)) + [ColumnClose]
  }

  /** The lines of the first `c` columns. */
  function Columns(words: seq<string>, k: int, c: nat): seq<string>
    requires c == 0 || (k > 0 && c <= NumColumns(|words|, k))
  {
    if c == 0 then [] else Columns(words, k, c - 1) + Block(words, k, c - 1)
  }

  lemma ColumnsNext(words: seq<string>, k: int, c: nat)
    requires k > 0 && c < NumColumns(|words|, k)
    ensures c * k <= Min((c + 1) * k, |words|) <= |words|
    ensures Columns(words, k, c + 1) == Columns(words, k, c) + [ColumnOpen, ColumnHeading(c + 1)]
              + Entries(words, c * k, Min((c + 1) * k, |words|)) + [ColumnClose]
  {
    ColumnLayout(|words|, k, c);
  }

  lemma EntriesNext(words: seq<string>, lo: nat, hi: nat)
    requires lo <= hi < |words|
    ensures Entries(words, lo, hi + 1) == Entries(words, lo, hi) + [EntryLine(hi + 1, words[hi])]
  {
  }

  /**
   * Every line written for the sorted `words` with `k` words per column
   * (`k != 0`; `range` of a non-positive column count writes no column).
   */
  function Render(words: seq<string>, k: int): seq<string>
    requires k != 0
  {
    [Header] + Columns(words, k, Max(NumColumns(|words|, k), 0)) + [Footer]
  }

  /** With no words, or with a negative column size, only the wrapper is written. */
  lemma RenderWrapperOnly(words: seq<string>, k: int)
    requires k != 0
    requires words == [] || k < 0
    ensures Render(words, k) == [Header, Footer]
  {
  }

  /** The pattern reads back exactly the word of an entry line. */
  lemma EntryLineRoundTrip(serial: nat, w: string)
    requires w != [] && '\n' !in w
    ensures SearchEntry(EntryLine(serial, w)) == Some(w)
  {
    var digits := DecimalString(serial);
    var line := EntryLine(serial, w);
    var d := 3 + |digits|;
    assert line == "<p>" + digits + ". " + w + "</p>\n";
    assert forall k :: 3 <= k < d ==> line[k] == digits[k - 3];
    assert line[d..d + 2 + |w|] == ". " + w;
    assert line[d + 2..d + 2 + |w|] == w;
    assert line[d + 2 + |w|..] == "</p>\n";
    assert EntryShape(line, 0, d, w);
    SearchEntryOfEntry(line, d, w);
  }

  /** None of the wrapper, `<div>` or `</div>` lines matches the pattern. */
  lemma FrameLinesDoNotMatch()
    ensures SearchEntry(Header) == None
    ensures SearchEntry(ColumnOpen) == None
    ensures SearchEntry(ColumnClose) == None
    ensures SearchEntry(Footer) == None
  {
    assert 'p' !in Header && 'p' !in ColumnOpen && 'p' !in ColumnClose && 'p' !in Footer;
    NoMatchWithoutP(Header);
    NoMatchWithoutP(ColumnOpen);
    NoMatchWithoutP(ColumnClose);
    NoMatchWithoutP(Footer);
  }

  /** No `Column n` heading matches the pattern. */
  lemma HeadingDoesNotMatch(c: nat)
    ensures SearchEntry(ColumnHeading(c)) == None
  {
    var h := ColumnHeading(c);
    var digits := DecimalString(c);
    assert h == "<h2>Column " + digits + "</h2>\n";
    assert 'p' !in h by {
      assert 'p' !in "<h2>Column " && 'p' !in "</h2>\n";
      assert 'p' !in digits by {
        forall i | 0 <= i < |digits| ensures digits[i] != 'p' { assert IsDigit(digits[i]); }
      }
    }
    NoMatchWithoutP(h);
  }

  /** Three words, two per column: two columns, serials 1, 2 and then 3. */
  lemma PaginationExample()
    ensures Render(["ant", "bee", "cat"], 2) ==
              [ "<html><body>\n",
                "<div style=\"float:left; width:50%;\">\n", "<h2>Column 1</h2>\n",
                "<p>1. ant</p>\n", "<p>2. bee</p>\n", "</div>\n",
                "<div style=\"float:left; width:50%;\">\n", "<h2>Column 2</h2>\n",
                "<p>3. cat</p>\n", "</div>\n",
                "</body></html>" ]
  {
    var words := ["ant", "bee", "cat"];
    assert NumColumns(3, 2) == 2;
    assert DecimalString(1) == "1" && DecimalString(2) == "2" && DecimalString(3) == "3";
    assert EntryLine(1, "ant") == "<p>1. ant</p>\n";
    assert EntryLine(2, "bee") == "<p>2. bee</p>\n";
    assert EntryLine(3, "cat") == "<p>3. cat</p>\n";
    assert ColumnHeading(1) == "<h2>Column 1</h2>\n";
    assert ColumnHeading(2) == "<h2>Column 2</h2>\n";
    assert Entries(words, 0, 2) == [EntryLine(1, "ant"), EntryLine(2, "bee")];
    assert Entries(words, 2, 3) == [EntryLine(3, "cat")];
    assert Columns(words, 2, 1) == Block(words, 2, 0);
    assert Columns(words, 2, 2) == Block(words, 2, 0) + Block(words, 2, 1);
  }
}
