/** The author-name initialiser of adslib: `extract_initial` reduces one given name to
    its initial and `initialize_names` turns "Last, First Middle" into "Last, F.M.".

    The two character classes the source takes from Python are parameters here:
    `word` is `\w` of its regular expressions (Unicode-aware, so Cyrillic and CJK
    letters are word characters) and `space` is the whitespace of `str.split()`. */
module AdsLib {
  import opened PyStr

  datatype Option<T> = None | Some(value: T)

  /** The character classes of Python's regular expressions and of `str.split()`. */
  datatype Classes = Classes(word: char -> bool, space: char -> bool)

  /** The facts about those classes that the initialiser relies on, all of which hold
      in Python: a blank is whitespace, and neither a hyphen nor a period is whitespace
      or `\w`. */
  predicate PythonLike(cl: Classes) {
    cl.space(' ') && !cl.space('-') && !cl.word('-') && !cl.space('.') && !cl.word('.')
  }

  /** A character that the lazy prefix `[^ .]*?` of the pattern cannot consume. */
  predicate IsDelimiter(c: char) {
    c == ' ' || c == '.'
  }

  /** No character of `s` is a word character. */
  predicate NoWord(s: string, word: char -> bool) {
    forall m :: 0 <= m < |s| ==> !word(s[m])
  }

  /** `j` is the position of the first word character of `s`. */
  predicate IsFirstWord(s: string, j: nat, word: char -> bool) {
    j < |s| && word(s[j]) && forall m :: 0 <= m < j ==> !word(s[m])
  }

  /** The span `[start, end)` of a regular-expression match. */
  datatype Span = Span(start: nat, end: nat)

  // ---------------------------------------------------------------------------
  // extract_initial: `re.search("[^ .]*?[^\W]", name)`, then `group(0) + '.'`
  // ---------------------------------------------------------------------------

  /** Matching `[^ .]*?[^\W]` once the lazy prefix has reached position `k`: the word
      character is tried first, and the prefix grows only over a non-delimiter.
      Returns the end of the match. */
  function MatchFrom(s: string, k: nat, word: char -> bool): (e: Option<nat>)
    requires k <= |s|
    ensures e.Some? ==> k < e.value <= |s| && word(s[e.value - 1])
    ensures e.Some? ==> forall m :: k <= m < e.value - 1 ==> !word(s[m]) && !IsDelimiter(s[m])
    ensures e.None? ==> forall m :: k <= m < |s| && word(s[m]) ==>
                          exists d :: k <= d < m && IsDelimiter(s[d])
    decreases |s| - k
  {
    if k == |s| then None
    else if word(s[k]) then Some(k + 1)
    else if IsDelimiter(s[k]) then None
    else MatchFrom(s, k + 1, word)
  }

  /** `re.search` from start position `i` on: the match attempted at the leftmost
      start that succeeds. */
  function SearchFrom(s: string, i: nat, word: char -> bool): (r: Option<Span>)
    requires i <= |s|
    ensures r.None? <==> forall m :: i <= m < |s| ==> !word(s[m])
    ensures r.Some? ==> i <= r.value.start < r.value.end <= |s|
    ensures r.Some? ==> word(s[r.value.end - 1])
    ensures r.Some? ==> forall m :: i <= m < r.value.end - 1 ==> !word(s[m])
    ensures r.Some? ==> forall m :: r.value.start <= m < r.value.end - 1 ==> !IsDelimiter(s[m])
    ensures r.Some? ==> r.value.start == i || IsDelimiter(s[r.value.start - 1])
    decreases |s| - i
  {
    match MatchFrom(s, i, word)
    case Some(e) =>
      Some(Span(i, e))
    case None =>
      if i == |s| then None
      else
        var r := SearchFrom(s, i + 1, word);
        assert !word(s[i]);
        if r.Some? && r.value.start == i + 1 then
          var m := r.value.end - 1;
          var d :| i <= d < m && IsDelimiter(s[d]);
          assert d == i;
          r
        else r
  }

  /** `re.search(pattern, s)`: nothing exactly when `s` has no word character;
      otherwise the match ends just after the first word character and starts where
      the run of non-delimiters before it starts. */
  function Search(s: string, word: char -> bool): (r: Option<Span>)
    ensures r.None? <==> NoWord(s, word)
    ensures r.Some? ==> 0 < r.value.end <= |s| && IsFirstWord(s, r.value.end - 1, word) &&
                        r.value.start == RunStart(s, r.value.end - 1)
  {
    var r := SearchFrom(s, 0, word);
    if r.Some? then
      RunStartUnique(s, r.value.end - 1, r.value.start);
      r
    else r
  }

  /** `extract_initial`: the match followed by a period, or the name itself when the
      search finds nothing (the `AttributeError` branch). */
  function ExtractInitial(name: string, word: char -> bool): (r: string)
    ensures NoWord(name, word) ==> r == name
    ensures !NoWord(name, word) ==> |r| >= 2 && r[|r| - 1] == '.' && word(r[|r| - 2])
  {
    match Search(name, word)
    case Some(m) => name[m.start..m.end] + "."
    case None => name
  }

  /** Where the run of non-delimiters that ends at position `j` starts: just after the
      last blank or period before `j`, or at 0. */
  function RunStart(s: string, j: nat): (a: nat)
    requires j <= |s|
    ensures a <= j && (a == 0 || IsDelimiter(s[a - 1]))
    ensures forall m :: a <= m < j ==> !IsDelimiter(s[m])
  {
    if j == 0 then 0
    else if IsDelimiter(s[j - 1]) then j
    else RunStart(s, j - 1)
  }

  /** The initial is what the regular expression promises: the run of non-delimiters
      that ends at the first word character, followed by a period. */
  lemma ExtractInitialMatch(name: string, j: nat, word: char -> bool)
    requires IsFirstWord(name, j, word)
    ensures ExtractInitial(name, word) == name[RunStart(name, j)..j + 1] + "."
  {
    assert !NoWord(name, word) by { assert word(name[j]); }
  }

  /** The start of the run is determined by the two facts `RunStart` promises. */
  lemma {:induction false} RunStartUnique(s: string, j: nat, a: nat)
    requires a <= j <= |s| && (a == 0 || IsDelimiter(s[a - 1]))
    requires forall m :: a <= m < j ==> !IsDelimiter(s[m])
    ensures RunStart(s, j) == a
    decreases j
  {
    if j > a {
      assert !IsDelimiter(s[j - 1]);
      RunStartUnique(s, j - 1, a);
    }
  }

  /** For a token with neither blank nor period, the initial is the prefix up to and
      including the first word character, followed by a period ('First' gives 'F.'). */
  lemma ExtractInitialOfToken(name: string, j: nat, word: char -> bool)
    requires forall m :: 0 <= m < |name| ==> !IsDelimiter(name[m])
    requires IsFirstWord(name, j, word)
    ensures ExtractInitial(name, word) == name[..j + 1] + "."
  {
    ExtractInitialMatch(name, j, word);
  }

  // ---------------------------------------------------------------------------
  // initialize_names
  // ---------------------------------------------------------------------------

  /** The given names as `initialize_names` prepares them for splitting: every hyphen
      is preceded by a blank, every period becomes a blank. */
  function Normalize(given: string): (r: string)
    ensures '.' !in r
  {
    Replace(Replace(given, '-', " -"), '.', " ")
  }

  /** The list comprehension `[extract_initial(t) for t in tokens]`. */
  function ExtractAll(tokens: seq<string>, word: char -> bool): (r: seq<string>)
    ensures |r| == |tokens|
    ensures forall k :: 0 <= k < |tokens| ==> r[k] == ExtractInitial(tokens[k], word)
  {
    if tokens == [] then []
    else [ExtractInitial(tokens[0], word)] + ExtractAll(tokens[1..], word)
  }

  /** The initials of the text after the first comma, joined with no separator. */
  function Initials(given: string, cl: Classes): string {
    Concat(ExtractAll(SplitWords(Normalize(given), cl.space), cl.word))
  }

  /** `initialize_names`: a name without a comma is returned as it is; otherwise the
      text before the first comma is copied and followed by ", " and the initials of
      the rest. */
  function InitializeNames(fullName: string, cl: Classes): (r: string)
    ensures ',' !in fullName ==> r == fullName
    ensures ',' in fullName ==>
      var i := FirstIndex(fullName, ',');
      i + 2 <= |r| && r[..i] == fullName[..i] && r[i..i + 2] == ", "
  {
    var parts := SplitOnce(fullName, ',');
    var lastName := parts[0];
    if |parts| > 1 then
      assert |lastName| == FirstIndex(fullName, ',') by {
        var i := FirstIndex(fullName, ',');
        assert fullName[|lastName|] == ',';
        assert forall k :: 0 <= k < |lastName| ==> fullName[k] == lastName[k];
      }
      lastName + ", " + Initials(parts[1], cl)
    else lastName
  }

  // ---------------------------------------------------------------------------
  // A one-pass reference for the given-name pipeline
  // ---------------------------------------------------------------------------

  /** What `initialize_names` does to the given names, read character by character:
      a hyphen is copied and starts a new token, a period or blank ends the token, the
      first word character of a token is copied with a period after it, the rest of
      that token is dropped, and the characters before it are copied. `seen` is true
      once the current token has produced its initial. */
  function Scan(given: string, seen: bool, cl: Classes): string
    decreases |given|
  {
    if given == [] then []
    else
      var c := given[0];
      if c == '-' then "-" + Scan(given[1..], false, cl)
      else if c == '.' || cl.space(c) then Scan(given[1..], false, cl)
      else if seen then Scan(given[1..], true, cl)
      else if cl.word(c) then [c, '.'] + Scan(given[1..], true, cl)
      else [c] + Scan(given[1..], false, cl)
  }

  /** Scanning an already-scanned text changes nothing. */
  lemma {:induction false} ScanIdempotent(given: string, seen: bool, cl: Classes)
    ensures Scan(Scan(given, seen, cl), false, cl) == Scan(given, seen, cl)
    decreases |given|
  {
    if given != [] {
      var c, rest := given[0], given[1..];
      if c == '-' {
        ScanIdempotent(rest, false, cl);
        ScanCons(c, Scan(rest, false, cl), false, cl);
      } else if c == '.' || cl.space(c) {
        ScanIdempotent(rest, false, cl);
      } else if seen {
        ScanIdempotent(rest, true, cl);
      } else if cl.word(c) {
        var out := Scan(rest, true, cl);
        ScanIdempotent(rest, true, cl);
        ScanCons(c, ['.'] + out, false, cl);
        ScanCons('.', out, true, cl);
        assert [c, '.'] + out == [c] + (['.'] + out);
      } else {
        ScanIdempotent(rest, false, cl);
        ScanCons(c, Scan(rest, false, cl), false, cl);
      }
    }
  }

  /** One step of `Scan` on a text given as its first character and the rest. */
  lemma ScanCons(c: char, rest: string, seen: bool, cl: Classes)
    ensures Scan([c] + rest, seen, cl) ==
      if c == '-' then "-" + Scan(rest, false, cl)
      else if c == '.' || cl.space(c) then Scan(rest, false, cl)
      else if seen then Scan(rest, true, cl)
      else if cl.word(c) then [c, '.'] + Scan(rest, true, cl)
      else [c] + Scan(rest, false, cl)
  {
    assert ([c] + rest)[0] == c && ([c] + rest)[1..] == rest;
  }

  /** `Scan` for text already normalized: blanks are the only token separators. */
  function ScanTokens(s: string, seen: bool, cl: Classes): string
    decreases |s|
  {
    if s == [] then []
    else if cl.space(s[0]) then ScanTokens(s[1..], false, cl)
    else if seen then ScanTokens(s[1..], true, cl)
    else if cl.word(s[0]) then [s[0], '.'] + ScanTokens(s[1..], true, cl)
    else [s[0]] + ScanTokens(s[1..], false, cl)
  }

  /** Normalizing acts character by character. */
  lemma NormalizeCons(c: char, rest: string)
    ensures Normalize([c] + rest) ==
      (if c == '-' then " -" else if c == '.' then " " else [c]) + Normalize(rest)
  {
    ReplaceAppend([c], rest, '-', " -");
    var r1 := if c == '-' then " -" else [c];
    assert Replace([c], '-', " -") == r1 by { assert [c][1..] == []; }
    ReplaceAppend(r1, Replace(rest, '-', " -"), '.', " ");
    if c == '-' {
      assert Replace(r1, '.', " ") == r1 by {
        assert r1[1..] == "-" && "-"[1..] == [];
      }
    } else {
      assert r1[1..] == [];
    }
  }

  /** Normalizing and then scanning tokens is the one-pass `Scan`. */
  lemma {:induction false} ScanTokensOfNormalize(given: string, seen: bool, cl: Classes)
    requires PythonLike(cl)
    ensures ScanTokens(Normalize(given), seen, cl) == Scan(given, seen, cl)
    decreases |given|
  {
    if given == [] {
      assert Normalize(given) == [];
    } else {
      var c, rest := given[0], given[1..];
      assert given == [c] + rest;
      NormalizeCons(c, rest);
      var n := Normalize(rest);
      ScanTokensOfNormalize(rest, false, cl);
      ScanTokensOfNormalize(rest, true, cl);
      if c == '-' {
        var t := " -" + n;
        assert t[0] == ' ' && t[1..] == "-" + n;
        assert ("-" + n)[0] == '-' && ("-" + n)[1..] == n;
      } else if c == '.' {
        assert (" " + n)[0] == ' ' && (" " + n)[1..] == n;
      } else {
        assert ([c] + n)[0] == c && ([c] + n)[1..] == n;
      }
    }
  }

  /** A token ends where a blank begins: what follows it is scanned afresh. */
  lemma {:induction false} ScanTokensBoundary(t: string, r: string, seen: bool, cl: Classes)
    requires r == [] || cl.space(r[0])
    ensures ScanTokens(t + r, seen, cl) == ScanTokens(t, seen, cl) + ScanTokens(r, false, cl)
    decreases |t|
  {
    if t == [] {
      assert t + r == r;
    } else {
      assert (t + r)[0] == t[0] && (t + r)[1..] == t[1..] + r;
      ScanTokensBoundary(t[1..], r, false, cl);
      ScanTokensBoundary(t[1..], r, true, cl);
    }
  }

  /** Once a token has produced its initial, the rest of it produces nothing. */
  lemma {:induction false} ScanTokensSeen(t: string, cl: Classes)
    requires NoSpace(t, cl.space)
    ensures ScanTokens(t, true, cl) == []
    decreases |t|
  {
    if t != [] {
      assert !cl.space(t[0]);
      ScanTokensSeen(t[1..], cl);
    }
  }

  /** A token without word characters scans to itself. */
  lemma {:induction false} ScanTokensCopy(t: string, cl: Classes)
    requires NoSpace(t, cl.space) && NoWord(t, cl.word)
    ensures ScanTokens(t, false, cl) == t
    decreases |t|
  {
    if t != [] {
      assert !cl.space(t[0]) && !cl.word(t[0]);
      ScanTokensCopy(t[1..], cl);
      assert t == [t[0]] + t[1..];
    }
  }

  /** A token scans to its prefix up to the first word character, then a period. */
  lemma {:induction false} ScanTokensFresh(t: string, j: nat, cl: Classes)
    requires NoSpace(t, cl.space) && IsFirstWord(t, j, cl.word)
    ensures ScanTokens(t, false, cl) == t[..j + 1] + "."
    decreases j
  {
    assert !cl.space(t[0]);
    if j == 0 {
      ScanTokensSeen(t[1..], cl);
      assert t[..1] == [t[0]];
    } else {
      assert !cl.word(t[0]);
      assert IsFirstWord(t[1..], j - 1, cl.word);
      ScanTokensFresh(t[1..], j - 1, cl);
      assert t[..j + 1] == [t[0]] + t[1..][..j];
    }
  }

  /** The position of the first word character of `s`, or `|s|` when there is none. */
  function FirstWord(s: string, word: char -> bool): (j: nat)
    ensures j <= |s| && forall m :: 0 <= m < j ==> !word(s[m])
    ensures j < |s| ==> word(s[j])
  {
    if s == [] || word(s[0]) then 0
    else
      var j := FirstWord(s[1..], word);
      1 + j
  }

  /** A whole token scans to what `extract_initial` makes of it. */
  lemma ScanTokensOfToken(t: string, cl: Classes)
    requires NoSpace(t, cl.space)
    requires forall m :: 0 <= m < |t| ==> !IsDelimiter(t[m])
    ensures ScanTokens(t, false, cl) == ExtractInitial(t, cl.word)
  {
    var j := FirstWord(t, cl.word);
    if j == |t| {
      assert t[..j] == t;
      ScanTokensCopy(t, cl);
    } else {
      ScanTokensFresh(t, j, cl);
      ExtractInitialOfToken(t, j, cl.word);
    }
  }

  /** Splitting normalized text on blanks, extracting every token's initial and joining
      them with no separator is the token scan. */
  lemma {:induction false} PipelineIsScanTokens(s: string, cl: Classes)
    requires PythonLike(cl) && '.' !in s
    ensures Concat(ExtractAll(SplitWords(s, cl.space), cl.word)) == ScanTokens(s, false, cl)
    decreases |s|
  {
    if s == [] {
    } else if cl.space(s[0]) {
      PipelineIsScanTokens(s[1..], cl);
    } else {
      var n := RunLength(s, cl.space);
      var t, r := s[..n], s[n..];
      assert s == t + r;
      assert '.' !in r by { assert forall m :: 0 <= m < |r| ==> r[m] == s[n + m]; }
      PipelineIsScanTokens(r, cl);
      ScanTokensBoundary(t, r, false, cl);
      assert forall m :: 0 <= m < |t| ==> !IsDelimiter(t[m]) by {
        assert forall m :: 0 <= m < |t| ==> t[m] == s[m];
      }
      ScanTokensOfToken(t, cl);
      var tokens := SplitWords(s, cl.space);
      var initials := ExtractAll(tokens, cl.word);
      assert tokens[1..] == SplitWords(r, cl.space);
      assert initials == [ExtractInitial(t, cl.word)] + ExtractAll(tokens[1..], cl.word);
      assert initials[1..] == ExtractAll(tokens[1..], cl.word);
    }
  }

  /** The given-name pipeline of `initialize_names` is the one-pass `Scan`. */
  lemma InitialsIsScan(given: string, cl: Classes)
    requires PythonLike(cl)
    ensures Initials(given, cl) == Scan(given, false, cl)
  {
    PipelineIsScanTokens(Normalize(given), cl);
    ScanTokensOfNormalize(given, false, cl);
  }

  /** `initialize_names` on a name whose first comma is at `i`: the text before it,
      then ", ", then the scan of everything after it. */
  lemma InitializeNamesAtComma(fullName: string, i: nat, cl: Classes)
    requires PythonLike(cl)
    requires i < |fullName| && fullName[i] == ',' && ',' !in fullName[..i]
    ensures InitializeNames(fullName, cl) == fullName[..i] + ", " + Scan(fullName[i + 1..], false, cl)
  {
    assert fullName == fullName[..i] + [','] + fullName[i + 1..];
    SplitOnceAt(fullName[..i], ',', fullName[i + 1..]);
    InitialsIsScan(fullName[i + 1..], cl);
  }

  /** The text before the first comma is the same in the result as in the input. */
  lemma LastNamePreserved(fullName: string, cl: Classes)
    ensures SplitOnce(InitializeNames(fullName, cl), ',')[0] == SplitOnce(fullName, ',')[0]
  {
    var parts := SplitOnce(fullName, ',');
    if |parts| == 2 {
      assert fullName == parts[0] + [','] + parts[1];
      LastNameOfParts(parts[0], parts[1], cl);
    }
  }

  /** The last name of a name put together from a comma-free last name, a comma and
      given names survives `initialize_names`. */
  lemma LastNameOfParts(last: string, given: string, cl: Classes)
    requires ',' !in last
    ensures SplitOnce(InitializeNames(last + [','] + given, cl), ',')[0] == last
  {
    InitializeNamesOfParts(last, given, cl);
    LastNameBeforeComma(last, Initials(given, cl));
  }

  /** A comma-free last name followed by ", " splits off again. */
  lemma LastNameBeforeComma(last: string, initials: string)
    requires ',' !in last
    ensures SplitOnce(last + ", " + initials, ',')[0] == last
  {
    assert last + ", " + initials == last + [','] + (" " + initials);
    SplitOnceAt(last, ',', " " + initials);
  }

  /** Scanning stops at a hyphen, a period or a blank: what follows is scanned afresh. */
  lemma {:induction false} ScanAtSeparator(a: string, c: char, b: string, seen: bool, cl: Classes)
    requires c == '-' || c == '.' || cl.space(c)
    ensures Scan(a + [c] + b, seen, cl) == Scan(a, seen, cl) + Scan([c] + b, false, cl)
    decreases |a|
  {
    if a == [] {
      assert a + [c] + b == [c] + b;
      ScanCons(c, b, seen, cl);
      ScanCons(c, b, false, cl);
    } else {
      assert a + [c] + b == [a[0]] + (a[1..] + [c] + b);
      assert a == [a[0]] + a[1..];
      ScanCons(a[0], a[1..] + [c] + b, seen, cl);
      ScanCons(a[0], a[1..], seen, cl);
      ScanAtSeparator(a[1..], c, b, false, cl);
      ScanAtSeparator(a[1..], c, b, true, cl);
    }
  }

  /** A hyphen in the given names starts a new token and is kept in front of that
      token's initial ('Hyphenated-First' gives 'H.-F.'). */
  lemma HyphenStartsToken(a: string, b: string, cl: Classes)
    requires PythonLike(cl)
    ensures Initials(a + "-" + b, cl) == Initials(a, cl) + "-" + Initials(b, cl)
  {
    InitialsIsScan(a + "-" + b, cl);
    InitialsIsScan(a, cl);
    InitialsIsScan(b, cl);
    ScanAtSeparator(a, '-', b, false, cl);
    ScanCons('-', b, false, cl);
  }

  /** A period or a blank only separates tokens: the initials on either side are
      joined with nothing between them ('F. M.' gives 'F.M.'). */
  lemma SeparatorJoinsInitials(a: string, c: char, b: string, cl: Classes)
    requires PythonLike(cl) && (c == '.' || cl.space(c))
    ensures Initials(a + [c] + b, cl) == Initials(a, cl) + Initials(b, cl)
  {
    InitialsIsScan(a + [c] + b, cl);
    InitialsIsScan(a, cl);
    InitialsIsScan(b, cl);
    ScanAtSeparator(a, c, b, false, cl);
    ScanCons(c, b, false, cl);
  }

  /** A single given name, with no hyphen, period or blank, yields exactly its
      `extract_initial`. */
  lemma SingleTokenInitial(t: string, cl: Classes)
    requires PythonLike(cl) && '-' !in t && '.' !in t && NoSpace(t, cl.space)
    ensures Initials(t, cl) == ExtractInitial(t, cl.word)
  {
    assert Normalize(t) == t;
    InitialsIsScan(t, cl);
    ScanTokensOfNormalize(t, false, cl);
    ScanTokensOfToken(t, cl);
  }

  /** Given names made only of periods and blanks, as in 'Last,', yield no initials:
      the result is the last name followed by ", ". */
  lemma NoGivenNames(fullName: string, i: nat, cl: Classes)
    requires PythonLike(cl)
    requires i < |fullName| && fullName[i] == ',' && ',' !in fullName[..i]
    requires forall m :: i < m < |fullName| ==> fullName[m] == '.' || cl.space(fullName[m])
    ensures InitializeNames(fullName, cl) == fullName[..i] + ", "
  {
    InitializeNamesAtComma(fullName, i, cl);
    ScanOfSeparators(fullName[i + 1..], cl);
  }

  /** Periods and blanks alone scan to nothing. */
  lemma {:induction false} ScanOfSeparators(given: string, cl: Classes)
    requires PythonLike(cl)
    requires forall m :: 0 <= m < |given| ==> given[m] == '.' || cl.space(given[m])
    ensures Scan(given, false, cl) == []
    decreases |given|
  {
    if given != [] {
      assert forall m :: 0 <= m < |given| - 1 ==> given[1..][m] == given[m + 1];
      ScanOfSeparators(given[1..], cl);
    }
  }

  /** Applying `initialize_names` to its own result changes nothing. */
  lemma InitializeNamesIdempotent(fullName: string, cl: Classes)
    requires PythonLike(cl)
    ensures InitializeNames(InitializeNames(fullName, cl), cl) == InitializeNames(fullName, cl)
  {
    var parts := SplitOnce(fullName, ',');
    if |parts| == 2 {
      var last, given := parts[0], parts[1];
      var initials := Scan(given, false, cl);
      assert fullName == last + [','] + given;
      calc {
        InitializeNames(fullName, cl);
        { InitializeNamesOfParts(last, given, cl); }
        last + ", " + Initials(given, cl);
        { InitialsIsScan(given, cl); }
        last + ", " + initials;
      }
      StableOnScanned(last, given, cl);
    }
  }

  /** A result of the given-name scan, put back behind a last name and ", ", comes
      out of `initialize_names` as it went in. */
  lemma StableOnScanned(last: string, given: string, cl: Classes)
    requires PythonLike(cl) && ',' !in last
    ensures var initials := Scan(given, false, cl);
            InitializeNames(last + ", " + initials, cl) == last + ", " + initials
  {
    var initials := Scan(given, false, cl);
    calc {
      InitializeNames(last + ", " + initials, cl);
      { assert last + ", " + initials == last + [','] + (" " + initials); }
      InitializeNames(last + [','] + (" " + initials), cl);
      { InitializeNamesOfParts(last, " " + initials, cl); }
      last + ", " + Initials(" " + initials, cl);
      { InitialsIsScan(" " + initials, cl); ScanCons(' ', initials, false, cl); }
      last + ", " + Scan(initials, false, cl);
      { ScanIdempotent(given, false, cl); }
      last + ", " + initials;
    }
  }

  /** `initialize_names` on a name put together from a comma-free last name, a comma
      and the given names. */
  lemma InitializeNamesOfParts(last: string, given: string, cl: Classes)
    requires ',' !in last
    ensures InitializeNames(last + [','] + given, cl) == last + ", " + Initials(given, cl)
  {
    SplitOnceAt(last, ',', given);
  }

  /** The shape of the initials: no whitespace, every word character is followed by a
      period, and every period follows a word character. */
  predicate WellInitialed(out: string, cl: Classes) {
    NoSpace(out, cl.space) &&
    (forall k :: 0 <= k < |out| && cl.word(out[k]) ==> k + 1 < |out| && out[k + 1] == '.') &&
    (forall k :: 0 <= k < |out| && out[k] == '.' ==> 0 < k && cl.word(out[k - 1]))
  }

  /** Two well-initialed texts put side by side are well initialed. */
  lemma WellInitialedAppend(p: string, q: string, cl: Classes)
    requires WellInitialed(p, cl) && WellInitialed(q, cl)
    ensures WellInitialed(p + q, cl)
  {
    var out := p + q;
    forall k | 0 <= k < |out| && cl.word(out[k])
      ensures k + 1 < |out| && out[k + 1] == '.'
    {
      if k < |p| { assert p[k] == out[k]; } else { assert q[k - |p|] == out[k]; }
    }
    forall k | 0 <= k < |out| && out[k] == '.'
      ensures 0 < k && cl.word(out[k - 1])
    {
      if k < |p| {
        assert p[k] == out[k];
      } else {
        assert q[k - |p|] == out[k];
      }
    }
  }

  /** Whatever the given names, the initials have the shape of initials. */
  lemma {:induction false} ScanWellInitialed(given: string, seen: bool, cl: Classes)
    requires PythonLike(cl)
    ensures WellInitialed(Scan(given, seen, cl), cl)
    decreases |given|
  {
    if given != [] {
      var c, rest := given[0], given[1..];
      ScanWellInitialed(rest, false, cl);
      ScanWellInitialed(rest, true, cl);
      if c == '-' {
        WellInitialedAppend("-", Scan(rest, false, cl), cl);
      } else if c == '.' || cl.space(c) || seen {
      } else if cl.word(c) {
        WellInitialedAppend([c, '.'], Scan(rest, true, cl), cl);
      } else {
        WellInitialedAppend([c], Scan(rest, false, cl), cl);
      }
    }
  }
}
