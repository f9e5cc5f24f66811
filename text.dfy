/** Models of the Python `str` built-ins that the name initialiser is composed of:
    `split(sep, 1)`, `replace`, `split()` and `"".join`. Python's whitespace set is
    left abstract: it is the `space` predicate passed to `SplitWords`. */
module PyStr {

  /** The position of the first `sep` in `s`, or `|s|` when there is none
      (`s.find(sep)`, with `|s|` in place of -1). */
  function FirstIndex(s: string, sep: char): (i: nat)
    ensures i <= |s| && sep !in s[..i]
    ensures i < |s| ==> s[i] == sep
  {
    if s == [] || s[0] == sep then 0
    else
      var j := FirstIndex(s[1..], sep);
      assert s[..j + 1] == [s[0]] + s[1..][..j];
      1 + j
  }

  /** `s.split(sep, 1)` for a one-character separator: the whole string when `sep`
      does not occur, otherwise the text before its first occurrence and the text after it. */
  function SplitOnce(s: string, sep: char): (parts: seq<string>)
    ensures |parts| == 1 || |parts| == 2
    ensures |parts| == 1 <==> sep !in s
    ensures |parts| == 1 ==> parts[0] == s
    ensures |parts| == 2 ==> parts[0] + [sep] + parts[1] == s && sep !in parts[0]
  {
    var i := FirstIndex(s, sep);
    if i == |s| then
      assert s[..i] == s;
      [s]
    else
      assert s == s[..i] + [sep] + s[i + 1..];
      [s[..i], s[i + 1..]]
  }

  /** The part before the first `sep` is fixed by where that `sep` is: any string
      that starts with a `sep`-free `head` followed by `sep` splits right after `head`. */
  lemma {:induction false} SplitOnceAt(head: string, sep: char, tail: string)
    requires sep !in head
    ensures SplitOnce(head + [sep] + tail, sep) == [head, tail]
  {
    var s := head + [sep] + tail;
    var parts := SplitOnce(s, sep);
    assert sep in s by { assert s[|head|] == sep; }
    assert |parts| == 2;
    var p := parts[0];
    assert |p| == |head| by {
      assert s == p + [sep] + parts[1];
      assert s[|p|] == sep && s[|head|] == sep;
      assert forall k :: 0 <= k < |head| ==> s[k] == head[k];
      assert forall k :: 0 <= k < |p| ==> s[k] == p[k];
    }
    assert p == s[..|head|] == head;
    assert parts[1] == s[|head| + 1..] == tail;
  }

  /** `s.replace(pat, rep)` for a one-character pattern. */
  function Replace(s: string, pat: char, rep: string): (r: string)
    ensures pat !in rep ==> pat !in r
    ensures pat !in s ==> r == s
  {
    if s == [] then []
    else (if s[0] == pat then rep else [s[0]]) + Replace(s[1..], pat, rep)
  }

  /** Replacing a single character acts piece by piece. */
  lemma {:induction false} ReplaceAppend(a: string, b: string, pat: char, rep: string)
    ensures Replace(a + b, pat, rep) == Replace(a, pat, rep) + Replace(b, pat, rep)
  {
    if a != [] {
      assert (a + b)[0] == a[0];
      assert (a + b)[1..] == a[1..] + b;
      ReplaceAppend(a[1..], b, pat, rep);
    } else {
      assert a + b == b;
    }
  }

  /** No character of `s` is a space. */
  predicate NoSpace(s: string, space: char -> bool) {
    forall k :: 0 <= k < |s| ==> !space(s[k])
  }

  /** Length of the leading run of non-space characters of `s`. */
  function RunLength(s: string, space: char -> bool): (n: nat)
    ensures n <= |s|
    ensures NoSpace(s[..n], space)
    ensures n < |s| ==> space(s[n])
  {
    if s == [] || space(s[0]) then 0
    else
      var m := RunLength(s[1..], space);
      assert s[..m + 1] == [s[0]] + s[1..][..m];
      1 + m
  }

  /** `s.split()`: the maximal runs of non-space characters of `s`, in order. */
  function SplitWords(s: string, space: char -> bool): (words: seq<string>)
    ensures forall i :: 0 <= i < |words| ==> words[i] != [] && NoSpace(words[i], space)
    decreases |s|
  {
    if s == [] then []
    else if space(s[0]) then SplitWords(s[1..], space)
    else
      var n := RunLength(s, space);
      [s[..n]] + SplitWords(s[n..], space)
  }

  /** `"".join(parts)`. */
  function Concat(parts: seq<string>): (r: string)
    ensures |r| == 0 <==> forall i :: 0 <= i < |parts| ==> parts[i] == []
  {
    if parts == [] then []
    else
      var rest := Concat(parts[1..]);
      assert forall i :: 1 <= i < |parts| ==> parts[i] == parts[1..][i - 1];
      parts[0] + rest
  }

  /** Joining distributes over the concatenation of the lists joined. */
  lemma {:induction false} ConcatAppend(a: seq<string>, b: seq<string>)
    ensures Concat(a + b) == Concat(a) + Concat(b)
  {
    if a == [] {
      assert a + b == b;
    } else {
      assert (a + b)[0] == a[0];
      assert (a + b)[1..] == a[1..] + b;
      ConcatAppend(a[1..], b);
    }
  }

  /** Splitting at a space splits the word list: no word spans the space,
      and the space itself contributes no word. */
  lemma {:induction false} SplitWordsAtSpace(a: string, c: char, b: string, space: char -> bool)
    requires space(c)
    ensures SplitWords(a + [c] + b, space) == SplitWords(a, space) + SplitWords(b, space)
    decreases |a|
  {
    var s := a + [c] + b;
    if a == [] {
      assert s[1..] == b;
    } else if space(a[0]) {
      assert s[0] == a[0];
      assert s[1..] == a[1..] + [c] + b;
      SplitWordsAtSpace(a[1..], c, b, space);
    } else {
      var n := RunLength(a, space);
      assert s[0] == a[0];
      RunLengthAppend(a, [c] + b, space);
      assert a + ([c] + b) == s;
      assert RunLength(s, space) == n;
      assert s[..n] == a[..n];
      assert s[n..] == a[n..] + [c] + b;
      SplitWordsAtSpace(a[n..], c, b, space);
    }
  }

  /** A run that ends inside `a` is not affected by what follows `a`. */
  lemma {:induction false} RunLengthAppend(a: string, b: string, space: char -> bool)
    requires b != [] && space(b[0])
    ensures RunLength(a + b, space) == RunLength(a, space)
  {
    if a == [] {
      assert a + b == b;
    } else {
      assert (a + b)[0] == a[0];
      assert (a + b)[1..] == a[1..] + b;
      RunLengthAppend(a[1..], b, space);
    }
  }
}
