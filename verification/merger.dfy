/**
 * The first half of `store_unique_words`: the words of every input line,
 * normalised and filtered, added to the set seeded with the prior words.
 */
module Merger {
  import opened Normalizer

  /** `[clean_text(word) for word in line.split()]`. */
  function CleanedTokens(line: string): (r: seq<string>)
    ensures |r| == |Split(line)|
    ensures forall j :: 0 <= j < |r| ==> forall i :: 0 <= i < |r[j]| ==> IsAsciiLower(r[j][i])
  {
    var words := Split(line);
    seq(|words|, j requires 0 <= j < |words| => Clean(words[j]))
  }

  /** The words one line adds: the cleaned tokens longer than two characters. */
  function LineWords(line: string): (r: set<string>)
    ensures forall w :: w in r ==> IsCanonical(w)
  {
    var cleaned := CleanedTokens(line);
    set w | w in cleaned && |w| > 2
  }

  /** The set after `seed` has been updated with every line of `lines`, in order. */
  function Merge(seed: set<string>, lines: seq<string>): (r: set<string>)
    ensures seed <= r
  {
    if lines == [] then seed
    else Merge(seed, lines[..|lines| - 1]) + LineWords(lines[|lines| - 1])
  }

  /** A line contributes exactly the cleaned forms of its tokens that are longer than two. */
  lemma LineWordsMembers(line: string, w: string)
    ensures w in LineWords(line) <==> |w| > 2 && exists t :: t in Split(line) && Clean(t) == w
  {
    var words := Split(line);
    var cleaned := CleanedTokens(line);
    if w in LineWords(line) {
      var j :| 0 <= j < |cleaned| && cleaned[j] == w;
      assert words[j] in words && Clean(words[j]) == w;
    }
    if |w| > 2 && exists t :: t in words && Clean(t) == w {
      var t :| t in words && Clean(t) == w;
      var j :| 0 <= j < |words| && words[j] == t;
      assert cleaned[j] == w;
    }
  }

  /** Some line of `lines` contributes `w`. */
  ghost predicate FromInput(lines: seq<string>, w: string)
  {
    exists i :: 0 <= i < |lines| && w in LineWords(lines[i])
  }

  lemma FromInputSnoc(lines: seq<string>, w: string)
    requires lines != []
    ensures FromInput(lines, w) <==>
              FromInput(lines[..|lines| - 1], w) || w in LineWords(lines[|lines| - 1])
  {
    var n := |lines| - 1;
    var front := lines[..n];
    if FromInput(front, w) {
      var i :| 0 <= i < n && w in LineWords(front[i]);
      assert front[i] == lines[i];
      assert 0 <= i < |lines| && w in LineWords(lines[i]);
    }
    if FromInput(lines, w) && w !in LineWords(lines[n]) {
      var i :| 0 <= i < |lines| && w in LineWords(lines[i]);
      assert i != n;
      assert front[i] == lines[i];
      assert 0 <= i < |front| && w in LineWords(front[i]);
    }
  }

  /** The merged set holds the seed and the words of the lines, and nothing else. */
  lemma {:induction false} MergeMembers(seed: set<string>, lines: seq<string>, w: string)
    ensures w in Merge(seed, lines) <==> w in seed || FromInput(lines, w)
    decreases |lines|
  {
    if lines != [] {
      MergeMembers(seed, lines[..|lines| - 1], w);
      FromInputSnoc(lines, w);
    }
  }

  /** Every word the input adds to the seed is canonical. */
  lemma MergeAddsCanonical(seed: set<string>, lines: seq<string>, w: string)
    requires w in Merge(seed, lines) && w !in seed
    ensures IsCanonical(w)
  {
    MergeMembers(seed, lines, w);
  }

  /** Merging two chunks of input one after the other is merging their concatenation. */
  lemma {:induction false} MergeAppend(seed: set<string>, a: seq<string>, b: seq<string>)
    ensures Merge(seed, a + b) == Merge(Merge(seed, a), b)
    decreases |b|
  {
    if b == [] {
      assert a + b == a;
    } else {
      assert (a + b)[..|a + b| - 1] == a + b[..|b| - 1];
      MergeAppend(seed, a, b[..|b| - 1]);
    }
  }

  /** The seed only adds to what the input contributes. */
  lemma {:induction false} MergeSeed(seed: set<string>, lines: seq<string>)
    ensures Merge(seed, lines) == seed + Merge({}, lines)
    decreases |lines|
  {
    if lines != [] {
      MergeSeed(seed, lines[..|lines| - 1]);
    }
  }

  /** The order in which two chunks of input are read does not change the set. */
  lemma MergeOrderFree(seed: set<string>, a: seq<string>, b: seq<string>)
    ensures Merge(seed, a + b) == Merge(seed, b + a)
  {
    MergeAppend(seed, a, b);
    MergeAppend(seed, b, a);
    MergeSeed(Merge(seed, a), b);
    MergeSeed(Merge(seed, b), a);
    MergeSeed(seed, a);
    MergeSeed(seed, b);
  }

  /** A sample input line: a too-short word, a stray `!` and a token with digits and `_`. */
  const SampleLine := "Hi! to cat_99 dog"
  const SampleTokens := ["Hi!", "to", "cat_99", "dog"]

  lemma SplitExample()
    ensures Split(SampleLine) == SampleTokens
  {
    assert JoinSpaced(SampleTokens[3..]) == "dog";
    assert JoinSpaced(SampleTokens[2..]) == "cat_99 dog";
    assert JoinSpaced(SampleTokens[1..]) == "to cat_99 dog";
    assert JoinSpaced(SampleTokens) == SampleLine;
    SplitJoinSpaced(SampleTokens);
  }

  lemma CleanShortExample()
    ensures Clean("Hi!") == "hi" && Clean("to") == "to"
  {
    assert StripOthers("!") == "";
    assert StripOthers("i!") == "i";
    assert StripOthers("Hi!") == "Hi";
    assert StripOthers("o") == "o";
  }

  lemma CleanLongExample()
    ensures Clean("cat_99") == "cat" && Clean("dog") == "dog"
  {
    StripDigitsExample();
    assert StripOthers("g") == "g";
    assert StripOthers("og") == "og";
  }

  lemma StripDigitsExample()
    ensures StripOthers("cat_99") == "cat"
  {
    assert StripOthers("9") == "";
    assert StripOthers("99") == "";
    assert StripOthers("_99") == "";
    assert StripOthers("t_99") == "t";
    assert StripOthers("at_99") == "at";
  }

  lemma SampleOnlyLong(w: string)
    requires w in LineWords(SampleLine)
    ensures w == "cat" || w == "dog"
  {
    SplitExample();
    LineWordsMembers(SampleLine, w);
    var t :| t in SampleTokens && Clean(t) == w;
    var j :| 0 <= j < 4 && SampleTokens[j] == t;
    SampleTokenCleaned(j);
  }

  lemma SampleTokenCleaned(j: nat)
    requires j < 4
    ensures |Clean(SampleTokens[j])| <= 2 || Clean(SampleTokens[j]) in {"cat", "dog"}
  {
    CleanShortExample();
    CleanLongExample();
    if j == 0 {
      assert SampleTokens[j] == "Hi!";
    } else if j == 1 {
      assert SampleTokens[j] == "to";
    } else if j == 2 {
      assert SampleTokens[j] == "cat_99";
    } else {
      assert SampleTokens[j] == "dog";
    }
  }

  lemma SampleKeepsLong()
    ensures "cat" in LineWords(SampleLine) && "dog" in LineWords(SampleLine)
  {
    SplitExample();
    CleanLongExample();
    LineWordsMembers(SampleLine, "cat");
    assert SampleTokens[2] in SampleTokens;
    LineWordsMembers(SampleLine, "dog");
    assert SampleTokens[3] in SampleTokens;
  }

  /** `"Hi! to cat_99 dog"` adds `cat` and `dog`: `hi` and `to` are too short, `_99` is stripped. */
  lemma RejectionExample()
    ensures LineWords(SampleLine) == {"cat", "dog"}
  {
    forall w | w in LineWords(SampleLine) ensures w in {"cat", "dog"} {
      SampleOnlyLong(w);
    }
    SampleKeepsLong();
  }
}
