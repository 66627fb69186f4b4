/** The few Python string operations the pipeline is built from: `str.strip()`,
    `str.split(sep)`, `sep.join(xs)` and `str.replace(old, new)` for single characters. */
module PyStr {

  /** The characters Python's `str.isspace()` accepts; `str.strip()` with no
      argument removes exactly these from both ends. */
  predicate IsSpace(c: char) {
    ('\t' <= c <= '\r') || ('\U{1C}' <= c <= ' ') || c == '\U{85}' || c == '\U{A0}' ||
    c == '\U{1680}' || ('\U{2000}' <= c <= '\U{200A}') || c == '\U{2028}' || c == '\U{2029}' ||
    c == '\U{202F}' || c == '\U{205F}' || c == '\U{3000}'
  }

  /** True when `s` is empty or neither begins nor ends with whitespace. */
  predicate Trimmed(s: string) {
    s == [] || (!IsSpace(s[0]) && !IsSpace(s[|s| - 1]))
  }

  /** True when every character of `s` is whitespace (also when `s` is empty). */
  predicate AllSpace(s: string) {
    forall k :: 0 <= k < |s| ==> IsSpace(s[k])
  }

  /** True when `s[lo..hi]` is all whitespace. */
  predicate SpaceBetween(s: string, lo: nat, hi: nat) {
    forall k :: lo <= k < hi && k < |s| ==> IsSpace(s[k])
  }

  /** The first position at or after `i` that does not hold whitespace
      (`|s|` when there is none): where `s.lstrip()` begins. */
  function SkipSpace(s: string, i: nat): (k: nat)
    requires i <= |s|
    ensures i <= k <= |s|
    ensures SpaceBetween(s, i, k)
    ensures k < |s| ==> !IsSpace(s[k])
    decreases |s| - i
  {
    if i < |s| && IsSpace(s[i]) then SkipSpace(s, i + 1) else i
  }

  /** The least position `k` in `lo..j` after which `s[k..j]` is all whitespace:
      where `s[lo..j].rstrip()` ends. */
  function SkipSpaceBack(s: string, lo: nat, j: nat): (k: nat)
    requires lo <= j <= |s|
    ensures lo <= k <= j
    ensures SpaceBetween(s, k, j)
    ensures k > lo ==> !IsSpace(s[k - 1])
    decreases j
  {
    if j > lo && IsSpace(s[j - 1]) then SkipSpaceBack(s, lo, j - 1) else j
  }

  /** `s.strip()`: the text of `s` without its leading and trailing whitespace. */
  function Strip(s: string): (r: string)
    ensures |r| <= |s|
    ensures forall c :: c in r ==> c in s
    ensures Trimmed(r)
    ensures r == [] <==> AllSpace(s)
  {
    var i := SkipSpace(s, 0);
    var j := SkipSpaceBack(s, i, |s|);
    assert i < j ==> s[i..j][0] == s[i] && s[i..j][j - i - 1] == s[j - 1];
    assert i == j ==> AllSpace(s) by {
      if i == j {
        forall k | 0 <= k < |s| ensures IsSpace(s[k]) {
          assert k < i || i <= k < j;
        }
      }
    }
    s[i..j]
  }

  /** `SkipSpace` stops at the first character that is not whitespace. */
  lemma {:induction false} SkipSpaceUnique(s: string, i: nat, k: nat)
    requires i <= k <= |s| && SpaceBetween(s, i, k)
    requires k < |s| ==> !IsSpace(s[k])
    ensures SkipSpace(s, i) == k
    decreases k - i
  {
    if i < k {
      SkipSpaceUnique(s, i + 1, k);
    }
  }

  /** `SkipSpaceBack` stops after the last character that is not whitespace. */
  lemma {:induction false} SkipSpaceBackUnique(s: string, lo: nat, j: nat, k: nat)
    requires lo <= k <= j <= |s| && SpaceBetween(s, k, j)
    requires k > lo ==> !IsSpace(s[k - 1])
    ensures SkipSpaceBack(s, lo, j) == k
    decreases j - k
  {
    if k < j {
      SkipSpaceBackUnique(s, lo, j - 1, k);
    }
  }

  /** `str.strip()` is determined by its description: any split of `s` into a
      whitespace head, a trimmed middle and a whitespace tail has that middle as
      its stripped form. */
  lemma StripUnique(s: string, i: nat, j: nat)
    requires i <= j <= |s|
    requires SpaceBetween(s, 0, i) && SpaceBetween(s, j, |s|)
    requires i < j ==> !IsSpace(s[i]) && !IsSpace(s[j - 1])
    ensures Strip(s) == s[i..j]
  {
    if i == j {
      assert AllSpace(s) by {
        forall k | 0 <= k < |s| ensures IsSpace(s[k]) {
          assert k < i || j <= k;
        }
      }
    } else {
      SkipSpaceUnique(s, 0, i);
      SkipSpaceBackUnique(s, i, |s|, j);
    }
  }

  /** The stripped text is a slice of `s` with only whitespace before and after it. */
  lemma StripIsSlice(s: string)
    ensures exists i, j :: 0 <= i <= j <= |s| && Strip(s) == s[i..j] && SpaceBetween(s, 0, i) && SpaceBetween(s, j, |s|)
  {
    var i := SkipSpace(s, 0);
    var j := SkipSpaceBack(s, i, |s|);
    assert Strip(s) == s[i..j];
  }

  /** Stripping twice is stripping once. */
  lemma StripIdempotent(s: string)
    ensures Strip(Strip(s)) == Strip(s)
  {
    var r := Strip(s);
    StripUnique(r, 0, |r|);
    assert r[0..|r|] == r;
  }

  /** Whitespace around a trimmed text is removed and nothing else is. */
  lemma StripPadded(w1: string, x: string, w2: string)
    requires AllSpace(w1) && AllSpace(w2) && Trimmed(x)
    ensures Strip(w1 + x + w2) == x
  {
    var s := w1 + x + w2;
    var i, j := |w1|, |w1| + |x|;
    assert SpaceBetween(s, 0, i) by {
      forall k | 0 <= k < i ensures IsSpace(s[k]) { assert s[k] == w1[k]; }
    }
    assert SpaceBetween(s, j, |s|) by {
      forall k | j <= k < |s| ensures IsSpace(s[k]) { assert s[k] == w2[k - j]; }
    }
    assert i < j ==> s[i] == x[0] && s[j - 1] == x[|x| - 1];
    StripUnique(s, i, j);
    assert s[i..j] == x;
  }

  /** A few stripped words, for the examples. */
  lemma StripExamples()
    ensures Strip("A") == "A" && Strip("B") == "B" && Strip("C") == "C"
    ensures Strip(" B ") == "B" && Strip(" ") == ""
  {
    StripUnique("A", 0, 1);
    StripUnique("B", 0, 1);
    StripUnique("C", 0, 1);
    StripUnique(" B ", 1, 2);
  }

  /** `s.split(sep)` for a one-character separator: the fragments between the
      separators, in order, empty ones included; `"".split(sep)` is `[""]`. */
  function Split(s: string, sep: char): (r: seq<string>)
    ensures |r| >= 1
  {
    if s == [] then
      [[]]
    else
      var rest := Split(s[1..], sep);
      if s[0] == sep then [[]] + rest else [[s[0]] + rest[0]] + rest[1..]
  }

  /** There is one fragment more than there are separators, and no fragment
      holds a separator. */
  lemma {:induction false} SplitFragments(s: string, sep: char)
    ensures |Split(s, sep)| == multiset(s)[sep] + 1
    ensures forall k :: 0 <= k < |Split(s, sep)| ==> sep !in Split(s, sep)[k]
  {
    if s != [] {
      SplitFragments(s[1..], sep);
      assert s == [s[0]] + s[1..];
      var rest := Split(s[1..], sep);
      var r := Split(s, sep);
      if s[0] != sep {
        assert forall k :: 1 <= k < |r| ==> r[k] == rest[k];
      }
    }
  }

  /** `sep.join(xs)`. */
  function Join(sep: string, xs: seq<string>): string {
    if xs == [] then []
    else if |xs| == 1 then xs[0]
    else xs[0] + sep + Join(sep, xs[1..])
  }

  /** Joining the fragments back with the separator gives the original text. */
  lemma {:induction false} JoinSplit(s: string, sep: char)
    ensures Join([sep], Split(s, sep)) == s
  {
    if s != [] {
      var rest := Split(s[1..], sep);
      JoinSplit(s[1..], sep);
      if s[0] == sep {
        assert Split(s, sep) == [[]] + rest;
        assert ([[]] + rest)[1..] == rest;
      } else {
        var r := Split(s, sep);
        assert r == [[s[0]] + rest[0]] + rest[1..];
        if |rest| == 1 {
          assert Join([sep], rest) == rest[0];
        } else {
          assert r[1..] == rest[1..];
          assert Join([sep], rest) == rest[0] + [sep] + Join([sep], rest[1..]);
        }
      }
    }
  }

  /** Splitting text that one non-separator character precedes. */
  lemma SplitCons(c: char, s: string, sep: char)
    requires c != sep
    ensures var r := Split(s, sep); Split([c] + s, sep) == [[c] + r[0]] + r[1..]
  {
    assert ([c] + s)[1..] == s;
  }

  /** Splitting a text in front of which a separator-free word stands. */
  lemma {:induction false} SplitPrefix(a: string, s: string, sep: char)
    requires sep !in a
    ensures var r := Split(s, sep); Split(a + s, sep) == [a + r[0]] + r[1..]
  {
    if a != [] {
      var r := Split(s, sep);
      SplitPrefix(a[1..], s, sep);
      var big := Split(a[1..] + s, sep);
      assert big == [a[1..] + r[0]] + r[1..];
      assert big[0] == a[1..] + r[0] && big[1..] == r[1..];
      assert a + s == [a[0]] + (a[1..] + s);
      SplitCons(a[0], a[1..] + s, sep);
      assert [a[0]] + (a[1..] + r[0]) == a + r[0];
    } else {
      var r := Split(s, sep);
      assert a + s == s && a + r[0] == r[0];
      assert r == [r[0]] + r[1..];
    }
  }

  /** Splitting the join of separator-free words gives the words back. */
  lemma {:induction false} SplitJoin(xs: seq<string>, sep: char)
    requires xs != []
    requires forall k :: 0 <= k < |xs| ==> sep !in xs[k]
    ensures Split(Join([sep], xs), sep) == xs
  {
    if |xs| == 1 {
      SplitPrefix(xs[0], [], sep);
      assert xs[0] + [] == xs[0];
    } else {
      var tail := Join([sep], xs[1..]);
      SplitJoin(xs[1..], sep);
      assert Join([sep], xs) == xs[0] + ([sep] + tail);
      assert ([sep] + tail)[1..] == tail && ([sep] + tail)[0] == sep;
      var r := Split([sep] + tail, sep);
      assert r == [[]] + xs[1..];
      assert r[0] == [] && r[1..] == xs[1..];
      SplitPrefix(xs[0], [sep] + tail, sep);
      assert xs[0] + r[0] == xs[0];
      assert xs == [xs[0]] + xs[1..];
    }
  }

  /** Joining with a separator that is the concatenation of two parts. */
  lemma {:induction false} JoinAppend(sep: string, xs: seq<string>, ys: seq<string>)
    requires xs != [] && ys != []
    ensures Join(sep, xs + ys) == Join(sep, xs) + sep + Join(sep, ys)
  {
    if |xs| == 1 {
      assert (xs + ys)[1..] == ys;
    } else {
      JoinAppend(sep, xs[1..], ys);
      assert (xs + ys)[1..] == xs[1..] + ys;
    }
  }

  /** `s.replace(old, new)` for single characters: every `old` becomes `new`. */
  function ReplaceChar(s: string, from: char, to: char): (r: string)
    ensures |r| == |s|
    ensures from != to ==> from !in r
    ensures forall k :: 0 <= k < |s| ==> r[k] == (if s[k] == from then to else s[k])
  {
    if s == [] then []
    else [if s[0] == from then to else s[0]] + ReplaceChar(s[1..], from, to)
  }
}
