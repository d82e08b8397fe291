# English word store — a Dafny model

`English-word-storing-dictionary.py` keeps a growing vocabulary in an HTML
file. Each run works in four steps:

1. It reads back the words already stored in the file (`load_existing_words`).
2. It splits every input line on whitespace, normalises each token with
   `clean_text`, and adds the tokens longer than two characters.
3. It sorts the merged set and lays it out in columns of `words_per_column`,
   numbering the words 1..n across all columns.
4. It rewrites the file and returns n.

This project models that pipeline (lines 81-128) and proves what it
promises.

The file system is abstract:

- The prior file is an `Option<seq<string>>`. `None` means the file does not exist.
- Otherwise the prior file is the lines a text-mode read yields, each keeping its `"\n"`.
- The input is its sequence of lines.
- The output is the sequence of lines written. The last line, `</body></html>`, has no newline.

Modules:

- `Normalizer` — `clean_text`, and `str.split()` over Python's Unicode whitespace set.
- `Ordering` — Python's string order: lexicographic by code point, a proper prefix first. Also `sorted` of a set.
- `Decimal` — the decimal digits of a serial number.
- `EntryPattern` — a dedicated matcher for `re.search(r'<p>\d+\. (.+)</p>', line).group(1)`. It takes the leftmost match position and backtracks the greedy capture.
- `StoreReader` — `load_existing_words`, as a loop over the lines.
- `Merger` — the set the input loop builds.
- `Emitter` — the column count, the column ranges and the lines written.
- `Pipeline` — `store_unique_words`, as methods with loops proved against `Run`.
- `RoundTrip` — reading a written file back, and two runs in a row.

Behaviour of the code that the model keeps as written:

- A negative `words_per_column` makes `math.ceil(n / k)` zero or negative. No column is written: the file is only the wrapper, but the returned count is still n. A later run then loads nothing from it.
- `words_per_column == 0` raises `ZeroDivisionError` at line 107. That is before the output file is opened, so the old file is untouched.
- Empty input with no prior file writes zero columns.
- Words loaded from the prior file are kept verbatim. The length and letters-only filter applies only to words that come from the input.
- The capture of a prior line runs from `. ` to the last `</p>` before the line's end, because `(.+)` is greedy. It does not stop at the first `</p>`.

## Model

| member | source | states |
|---|---|---|
| Normalizer.StripOthers | English-word-storing-dictionary.py:82 | the substitution keeps only ASCII letters and whitespace, never lengthens, keeps a whitespace-free token whitespace-free, and leaves a letters-and-whitespace string unchanged |
| Normalizer.StripOthersChar | English-word-storing-dictionary.py:82 | a single character is kept iff it is an ASCII letter or whitespace, and deleted otherwise |
| Normalizer.StripOthersConcat | English-word-storing-dictionary.py:82 | the substitution acts on each part of the text independently, so the kept characters survive in their order; with StripOthersChar this fixes the result on every input |
| Normalizer.AsciiLowerConcat | English-word-storing-dictionary.py:83 | `lower()` acts on each part of the text independently |
| Normalizer.AsciiLower | English-word-storing-dictionary.py:83 | `lower()` on the stripped text keeps the length and lowers each character in place |
| Normalizer.Clean | English-word-storing-dictionary.py:81-83 | `clean_text` yields only lower-case ASCII letters and whitespace and is never longer than its input; a whitespace-free token yields letters only |
| Normalizer.CleanChar | English-word-storing-dictionary.py:81-83 | `clean_text` of one character is that character lowered if it is an ASCII letter or whitespace, else nothing |
| Normalizer.CleanConcat | English-word-storing-dictionary.py:81-83 | `clean_text` acts on each part of the text independently; with CleanChar this fixes the result on every input (`cat_99` gives `cat`) |
| Normalizer.CleanIdempotent | English-word-storing-dictionary.py:82-83 | `clean_text(clean_text(t)) == clean_text(t)` for every `t` |
| Normalizer.CleanFixesCanonical | English-word-storing-dictionary.py:82-83 | a stored word (lower-case letters, longer than two) is its own normal form |
| Normalizer.Split | English-word-storing-dictionary.py:102 | `line.split()` yields non-empty tokens without whitespace |
| Normalizer.SplitToken | English-word-storing-dictionary.py:102 | a non-empty token without whitespace splits into itself |
| Normalizer.SplitAtSpace | English-word-storing-dictionary.py:102 | a whitespace character separates: `split()` of `a + c + b` is `split()` of `a` followed by `split()` of `b`; with SplitToken this fixes `split()` of every line, including leading, repeated and trailing whitespace |
| Normalizer.SplitJoinSpaced | English-word-storing-dictionary.py:102 | splitting tokens joined by single spaces gives back exactly those tokens, in order |
| Ordering.LessIrreflexive | English-word-storing-dictionary.py:106 | no string sorts before itself |
| Ordering.LessTransitive | English-word-storing-dictionary.py:106 | the string order is transitive |
| Ordering.LessTotal | English-word-storing-dictionary.py:106 | any two distinct strings are ordered one way or the other |
| Ordering.LessAsymmetric | English-word-storing-dictionary.py:106 | two strings are never each before the other |
| Ordering.Least | English-word-storing-dictionary.py:106 | a non-empty set has an element that sorts before all its other elements |
| Ordering.SortedWords | English-word-storing-dictionary.py:106 | `sorted(list(s))` is strictly ascending, holds exactly the elements of `s` and has length `len(s)` |
| Ordering.AscendingUnique | English-word-storing-dictionary.py:106 | two strictly ascending sequences with the same elements are equal |
| Ordering.SortedWordsCharacterised | English-word-storing-dictionary.py:106 | any strictly ascending listing of a set is its sorted list |
| Decimal.DecimalString | English-word-storing-dictionary.py:122 | a serial prints as a non-empty run of digits without a leading zero |
| Decimal.ParseDecimalString | English-word-storing-dictionary.py:122 | reading the printed digits back gives the serial |
| Decimal.DecimalStringInjective | English-word-storing-dictionary.py:122 | distinct serials print differently |
| EntryPattern.MatchAt | English-word-storing-dictionary.py:90 | a match anchored at `i` is an instance of `<p>\d+\. (.+)</p>` whose group is non-empty and newline-free |
| EntryPattern.MatchAtComplete | English-word-storing-dictionary.py:90 | wherever the pattern can match at `i`, the matcher matches there, with the longest (greedy) group |
| EntryPattern.NoEntryWhereNoMatch | English-word-storing-dictionary.py:90 | where the anchored matcher fails, no instance of the pattern starts |
| EntryPattern.SearchFromLeftmost | English-word-storing-dictionary.py:90 | the search returns the match at the leftmost position where an instance of the pattern starts |
| EntryPattern.SearchEntrySound | English-word-storing-dictionary.py:90-92 | a word `re.search` returns is the greedy group of the leftmost instance of the pattern in the line |
| EntryPattern.SearchEntryComplete | English-word-storing-dictionary.py:90-92 | a line that contains an instance of the pattern anywhere yields a word |
| EntryPattern.NoMatchWithoutP | English-word-storing-dictionary.py:90-91 | a line without `p` yields nothing |
| EntryPattern.SearchEntryOfEntry | English-word-storing-dictionary.py:90-92 | a line that is exactly `<p>`, digits, `. `, `w`, `</p>` and a newline yields `w` |
| StoreReader.CapturedSetMembers | English-word-storing-dictionary.py:89-93 | a word is loaded iff some line of the file matches with it as its group |
| StoreReader.LoadedWordsAreLines | English-word-storing-dictionary.py:85-94 | every loaded word is non-empty and has no newline |
| StoreReader.CapturedSetConcat | English-word-storing-dictionary.py:89-93 | the words of two stretches of lines are the union of each stretch's words |
| StoreReader.NoneMatch | English-word-storing-dictionary.py:89-91 | lines none of which match contribute nothing |
| StoreReader.Framed | English-word-storing-dictionary.py:89-93 | non-matching lines around a body change neither the matching lines nor the words |
| StoreReader.CapturedSetOfEntryLines | English-word-storing-dictionary.py:89-93 | only the matching lines decide what is loaded |
| StoreReader.LoadExistingWords | English-word-storing-dictionary.py:85-94 | the loop builds the set of the groups of all matching lines; an absent file gives the empty set |
| Merger.CleanedTokens | English-word-storing-dictionary.py:102-103 | one cleaned token per split token, each made of lower-case letters only |
| Merger.LineWords | English-word-storing-dictionary.py:102-104 | every word a line adds is lower-case letters only and longer than two |
| Merger.LineWordsMembers | English-word-storing-dictionary.py:102-104 | a line adds `w` iff `w` is longer than two and is the cleaned form of one of its tokens |
| Merger.Merge | English-word-storing-dictionary.py:97-104 | the set only grows: every prior word is kept |
| Merger.MergeMembers | English-word-storing-dictionary.py:97-104 | a word is in the merged set iff it is a prior word or some input line adds it |
| Merger.MergeAddsCanonical | English-word-storing-dictionary.py:102-104 | every word not loaded from the file is lower-case letters only and longer than two |
| Merger.MergeAppend | English-word-storing-dictionary.py:100-104 | reading `a + b` is reading `a` and then continuing with `b` |
| Merger.MergeSeed | English-word-storing-dictionary.py:97-98 | the merged set is the prior words plus what the input adds on its own |
| Merger.MergeOrderFree | English-word-storing-dictionary.py:100-104 | the order of the input stretches does not change the merged set |
| Merger.RejectionExample | English-word-storing-dictionary.py:102-104 | `"Hi! to cat_99 dog"` adds exactly `cat` and `dog` |
| Emitter.NumColumns | English-word-storing-dictionary.py:107 | `math.ceil(n / k)` as an exact integer ceiling, for positive and negative `k` |
| Emitter.ColumnLayout | English-word-storing-dictionary.py:113-118 | column ranges are non-empty, at most `k` long, start at 0, are contiguous, and the last ends at n; all but the last are exactly `k` long |
| Emitter.EntriesSplit | English-word-storing-dictionary.py:117-122 | the entry lines of adjacent ranges concatenate to those of the joined range |
| Emitter.EntriesNext | English-word-storing-dictionary.py:120-122 | the word at sorted index `i` is written with serial `i + 1` |
| Emitter.ColumnsNext | English-word-storing-dictionary.py:113-124 | column `c + 1` adds its `<div>`, its heading, the entries `c*k+1 ..` and `</div>` |
| Emitter.RenderWrapperOnly | English-word-storing-dictionary.py:107-126 | with no words, or a negative column size, the file is only `<html><body>` and `</body></html>` |
| Emitter.EntryLineRoundTrip | English-word-storing-dictionary.py:122 | the pattern recovers exactly `w` from the entry line written for `w` |
| Emitter.FrameLinesDoNotMatch | English-word-storing-dictionary.py:110 | the wrapper, `<div>` and `</div>` lines never match the pattern |
| Emitter.HeadingDoesNotMatch | English-word-storing-dictionary.py:115 | no `<h2>Column n</h2>` line matches the pattern |
| Emitter.PaginationExample | English-word-storing-dictionary.py:107-126 | `ant`, `bee`, `cat` with two per column gives two columns holding 1. ant, 2. bee and 3. cat |
| Pipeline.MergeInput | English-word-storing-dictionary.py:98-104 | the loop over input lines builds exactly the merged set |
| Pipeline.WriteEntries | English-word-storing-dictionary.py:120-122 | the inner loop appends the entry lines of one range, serials counting from its start plus one |
| Pipeline.WriteColumns | English-word-storing-dictionary.py:107-126 | the column loop writes exactly the rendered file |
| Pipeline.StoreUniqueWords | English-word-storing-dictionary.py:96-128 | a run fails iff the column size is 0; otherwise it returns the size of the merged set and writes the rendered file |
| RoundTrip.EntriesAllMatch | English-word-storing-dictionary.py:120-122 | every entry line of a range matches |
| RoundTrip.EntriesReadBack | English-word-storing-dictionary.py:120-122 | the entry lines of a range read back as exactly its words |
| RoundTrip.RenderEntryLines | English-word-storing-dictionary.py:109-126 | the matching lines of the file are, in order, `<p>1. w1</p>`, `<p>2. w2</p>`, ...: serials continue across columns |
| RoundTrip.RenderReadBack | English-word-storing-dictionary.py:109-126 | reading a written file back gives exactly the words written |
| RoundTrip.MergedStorable | English-word-storing-dictionary.py:97-106 | every merged word is non-empty and newline-free, so it survives a round trip |
| RoundTrip.SortedWordsIn | English-word-storing-dictionary.py:106 | the sorted list of a set holds exactly that set's words |
| RoundTrip.RunReadBack | English-word-storing-dictionary.py:96-128 | the next run loads exactly this run's merged set; the returned count is its size |
| RoundTrip.RunEntryLines | English-word-storing-dictionary.py:106-128 | the matching lines of the file are the words of the merged set's sorted list, numbered 1..n |
| RoundTrip.Accumulate | English-word-storing-dictionary.py:96-128 | a run on `a` and then a run on `b` give the prior words plus what `a` adds plus what `b` adds |
| RoundTrip.RunEmpty | English-word-storing-dictionary.py:106-128 | empty input with no file returns 0 and writes the wrapper only |
| RoundTrip.RunNegativeColumnSize | English-word-storing-dictionary.py:107-113 | a negative column size returns the full count but writes no column, so nothing can be loaded back |

## Left out

- The Streamlit front end `main` (lines 130-143) is presentation only and is not part of this model.
- `tqdm` progress bars (lines 101, 120-121) only report progress and do not change results.
- Real file access is not modelled: `os.path.exists`, `open`, UTF-8 decoding, universal-newline translation, and a write that fails or crashes half-way. Files are the sequences of lines described above.
- Because `open(output_file, 'w')` is modelled as writing the whole file at once, a crash mid-write cannot be expressed. Neither can the data loss it would cause on the next run.
- EntryPattern.MatchAt: `\d` is taken as ASCII digits only. Python's `re` also accepts other Unicode decimal digits. The writer emits only ASCII digits, so the round trip is unaffected.
- Emitter.NumColumns: this is the exact integer ceiling. Float rounding of `n / k` when n or k is beyond 2^53 is not modelled.
- Pipeline.StoreUniqueWords: the default `words_per_column=100000` (line 96) is not modelled; the caller always passes the column size.
- The commented-out copy of the same code (lines 1-72) duplicates lines 75-128 and is not modelled separately.
- HTML presentation beyond the literal strings written is outside the model.
