/**
 * The token normaliser `clean_text`: every character that is neither an ASCII
 * letter nor whitespace is deleted, then the rest is lower-cased.  Also the
 * whitespace tokenizer `str.split()` that feeds it.
 */
module Normalizer {

  predicate IsAsciiLetter(c: char) { 'a' <= c <= 'z' || 'A' <= c <= 'Z' }

  predicate IsAsciiLower(c: char) { 'a' <= c <= 'z' }

  /**
   * Python's whitespace (`str.isspace`, which is also what `\s` matches in a
   * `str` pattern and what `str.split()` splits on), by code point.
   */
  predicate IsSpace(c: char)
  {
    var x := c as int;
    (0x09 <= x <= 0x0D) || (0x1C <= x <= 0x20) || x == 0x85 || x == 0xA0 || x == 0x1680 ||
    (0x2000 <= x <= 0x200A) || x == 0x2028 || x == 0x2029 || x == 0x202F || x == 0x205F || x == 0x3000
  }

  /** Every character of `s` is an ASCII letter or whitespace. */
  predicate OnlyLettersAndSpace(s: string)
  {
    forall i :: 0 <= i < |s| ==> IsAsciiLetter(s[i]) || IsSpace(s[i])
  }

  predicate NoSpace(s: string)
  {
    forall i :: 0 <= i < |s| ==> !IsSpace(s[i])
  }

  /** A stored word: only lower-case ASCII letters, more than two of them. */
  predicate IsCanonical(w: string)
  {
    |w| > 2 && forall i :: 0 <= i < |w| ==> IsAsciiLower(w[i])
  }

  /** `re.sub(r'[^a-zA-Z\s]', '', text)`: deletes every other character. */
  function StripOthers(t: string): (r: string)
    ensures |r| <= |t|
    ensures OnlyLettersAndSpace(r)
    ensures NoSpace(t) ==> NoSpace(r)
    ensures OnlyLettersAndSpace(t) ==> r == t
  {
    if t == [] then []
    else
      var rest := StripOthers(t[1..]);
      if IsAsciiLetter(t[0]) || IsSpace(t[0]) then [t[0]] + rest else rest
  }

  function LowerChar(c: char): char
  {
    if 'A' <= c <= 'Z' then (c as int - 'A' as int + 'a' as int) as char else c
  }

  /**
   * `str.lower()` restricted to ASCII: upper-case ASCII letters become lower
   * case, everything else is kept.  On the output of StripOthers this is
   * exactly Python's `lower()`, since no whitespace character has a case.
   */
  function AsciiLower(t: string): (r: string)
    ensures |r| == |t|
    ensures forall i :: 0 <= i < |t| ==> r[i] == LowerChar(t[i])
  {
    if t == [] then [] else [LowerChar(t[0])] + AsciiLower(t[1..])
  }

  /** `clean_text`. */
  function Clean(t: string): (r: string)
    ensures |r| <= |t|
    ensures forall i :: 0 <= i < |r| ==> IsAsciiLower(r[i]) || IsSpace(r[i])
    ensures NoSpace(t) ==> forall i :: 0 <= i < |r| ==> IsAsciiLower(r[i])
  {
    AsciiLower(StripOthers(t))
  }

  /** The substitution works character by character: a kept character stays, any other is deleted. */
  lemma StripOthersChar(c: char)
    ensures StripOthers([c]) == if IsAsciiLetter(c) || IsSpace(c) then [c] else []
  {
    assert [c][1..] == [];
  }

  /** ... and independently on each part of the text, so the kept characters survive in order. */
  lemma {:induction false} StripOthersConcat(a: string, b: string)
    ensures StripOthers(a + b) == StripOthers(a) + StripOthers(b)
    decreases |a|
  {
    if a == [] {
      assert a + b == b;
    } else {
      assert (a + b)[0] == a[0];
      assert (a + b)[1..] == a[1..] + b;
      StripOthersConcat(a[1..], b);
    }
  }

  /** `clean_text` of one character: lowered when kept, deleted otherwise. */
  lemma CleanChar(c: char)
    ensures Clean([c]) == if IsAsciiLetter(c) || IsSpace(c) then [LowerChar(c)] else []
  {
    StripOthersChar(c);
  }

  lemma {:induction false} AsciiLowerConcat(a: string, b: string)
    ensures AsciiLower(a + b) == AsciiLower(a) + AsciiLower(b)
    decreases |a|
  {
    if a == [] {
      assert a + b == b;
    } else {
      assert (a + b)[0] == a[0];
      assert (a + b)[1..] == a[1..] + b;
      AsciiLowerConcat(a[1..], b);
    }
  }

  /** `clean_text` works on each part of the text independently. */
  lemma CleanConcat(a: string, b: string)
    ensures Clean(a + b) == Clean(a) + Clean(b)
  {
    StripOthersConcat(a, b);
    AsciiLowerConcat(StripOthers(a), StripOthers(b));
  }

  /** Cleaning twice is cleaning once. */
  lemma CleanIdempotent(t: string)
    ensures Clean(Clean(t)) == Clean(t)
  {
    var c := Clean(t);
    assert OnlyLettersAndSpace(c);
    assert StripOthers(c) == c;
    assert AsciiLower(c) == c;
  }

  /** A word that is already canonical is its own normal form. */
  lemma CleanFixesCanonical(w: string)
    requires IsCanonical(w)
    ensures Clean(w) == w
  {
    assert OnlyLettersAndSpace(w);
    assert StripOthers(w) == w;
  }

  /** End of the run of non-whitespace characters that starts at `i`. */
  function TokenEnd(s: string, i: nat): (j: nat)
    requires i <= |s|
    ensures i <= j <= |s|
    ensures forall k :: i <= k < j ==> !IsSpace(s[k])
    ensures j < |s| ==> IsSpace(s[j])
    decreases |s| - i
  {
    if i == |s| || IsSpace(s[i]) then i else TokenEnd(s, i + 1)
  }

  /**
   * `str.split()` with no separator: the maximal runs of non-whitespace
   * characters, in order; leading, trailing and repeated whitespace gives no
   * empty token.
   */
  function Split(s: string): (r: seq<string>)
    ensures forall k :: 0 <= k < |r| ==> r[k] != [] && NoSpace(r[k])
    decreases |s|
  {
    if s == [] then []
    else if IsSpace(s[0]) then Split(s[1..])
    else
      var j := TokenEnd(s, 0);
      [s[..j]] + Split(s[j..])
  }

  /** The words of `ws` joined with single spaces (Python's `' '.join`). */
  function JoinSpaced(ws: seq<string>): string
  {
    if ws == [] then []
    else if |ws| == 1 then ws[0]
    else ws[0] + " " + JoinSpaced(ws[1..])
  }

  lemma TokenEndExact(s: string, j: nat)
    requires j <= |s|
    requires NoSpace(s[..j])
    requires j < |s| ==> IsSpace(s[j])
    ensures TokenEnd(s, 0) == j
  {
  }

  /** Splitting undoes joining with spaces, for non-empty words without whitespace. */
  lemma {:induction false} SplitJoinSpaced(ws: seq<string>)
    requires forall k :: 0 <= k < |ws| ==> ws[k] != [] && NoSpace(ws[k])
    ensures Split(JoinSpaced(ws)) == ws
  {
    if ws == [] {
    } else {
      var w := ws[0];
      var s := JoinSpaced(ws);
      if |ws| == 1 {
        assert s == w;
        TokenEndExact(s, |w|);
        assert s[..|w|] == w;
        assert s[|w|..] == [];
      } else {
        var tail := JoinSpaced(ws[1..]);
        assert s == w + (" " + tail);
        assert s[..|w|] == w;
        assert s[|w|] == ' ';
        TokenEndExact(s, |w|);
        assert !IsSpace(s[0]) by { assert s[0] == w[0]; }
        assert s[|w|..] == " " + tail;
        assert (" " + tail)[1..] == tail;
        SplitJoinSpaced(ws[1..]);
      }
    }
  }

  /** A non-empty token without whitespace splits into itself. */
  lemma SplitToken(t: string)
    requires t != [] && NoSpace(t)
    ensures Split(t) == [t]
  {
    TokenEndExact(t, |t|);
    assert t[..|t|] == t;
    assert t[|t|..] == [];
  }

  /** A whitespace character separates: what lies on each side splits independently. */
  lemma {:induction false} SplitAtSpace(a: string, c: char, b: string)
    requires IsSpace(c)
    ensures Split(a + [c] + b) == Split(a) + Split(b)
    decreases |a|
  {
    var s := a + [c] + b;
    if a == [] {
      assert s[0] == c;
      assert s[1..] == b;
    } else if IsSpace(a[0]) {
      assert s[0] == a[0];
      assert s[1..] == a[1..] + [c] + b;
      SplitAtSpace(a[1..], c, b);
    } else {
      var j := TokenEnd(a, 0);
      assert s[..j] == a[..j];
      assert s[j] == if j < |a| then a[j] else c;
      TokenEndExact(s, j);
      assert s[0] == a[0];
      assert s[j..] == a[j..] + [c] + b;
      SplitAtSpace(a[j..], c, b);
    }
  }
}
