/** The documented examples of `extract_initial` and `initialize_names`, proved for
    every choice of character classes that agrees with Python's on the characters the
    examples use. */
module Doctests {
  import opened PyStr
  import opened AdsLib

  /** ASCII letters, digits and the underscore, and the Cyrillic letters U+0400 to
      U+045F (the modern Cyrillic alphabets): all of them are `\w` in Python and none
      is whitespace. */
  predicate SampleWord(c: char) {
    ('a' <= c <= 'z') || ('A' <= c <= 'Z') || ('0' <= c <= '9') || c == '_' ||
    ('\U{400}' <= c <= '\U{45F}')
  }

  /** `cl` agrees with Python on the characters of the examples. */
  predicate AgreesWithPython(cl: Classes) {
    PythonLike(cl) && forall c :: SampleWord(c) ==> cl.word(c) && !cl.space(c)
  }

  /** Whitespace as `str.split()` sees it, restricted to the ASCII blanks and the
      ideographic space. */
  predicate SampleSpace(c: char) {
    c == ' ' || c == '\t' || c == '\n' || c == '\r' || c == '\U{B}' || c == '\U{C}' ||
    c == '　'
  }

  /** A choice of classes that meets `AgreesWithPython`. */
  function Sample(): (cl: Classes)
    ensures AgreesWithPython(cl)
  {
    Classes(SampleWord, SampleSpace)
  }

  /** All characters of `t` are sample word characters. */
  predicate AllWord(t: string) {
    forall k :: 0 <= k < |t| ==> SampleWord(t[k])
  }

  /** `initialize_names` on a comma-free last name, ", " and given names, stated with
      the one-pass scan of the given names. */
  lemma ByScan(last: string, given: string, cl: Classes)
    requires PythonLike(cl) && ',' !in last
    ensures InitializeNames(last + ", " + given, cl) == last + ", " + Scan(given, false, cl)
  {
    assert last + ", " + given == last + [','] + ([' '] + given);
    InitializeNamesOfParts(last, [' '] + given, cl);
    InitialsIsScan([' '] + given, cl);
    ScanCons(' ', given, false, cl);
  }

  /** After its first character, a name of word characters scans to nothing. */
  lemma {:induction false} RestOfName(t: string, cl: Classes)
    requires AgreesWithPython(cl) && AllWord(t)
    ensures Scan(t, true, cl) == []
    decreases |t|
  {
    if t != [] {
      assert SampleWord(t[0]);
      assert AllWord(t[1..]) by {
        assert forall k :: 0 <= k < |t| - 1 ==> t[1..][k] == t[k + 1];
      }
      RestOfName(t[1..], cl);
    }
  }

  /** A name of word characters scans to its first letter and a period. */
  lemma ScanName(t: string, cl: Classes)
    requires AgreesWithPython(cl) && |t| > 0 && AllWord(t)
    ensures Scan(t, false, cl) == [t[0], '.']
  {
    assert SampleWord(t[0]);
    assert AllWord(t[1..]) by {
      assert forall k :: 0 <= k < |t| - 1 ==> t[1..][k] == t[k + 1];
    }
    RestOfName(t[1..], cl);
  }

  /** A single given name of word characters yields its first letter and a period. */
  lemma OneName(t: string, cl: Classes)
    requires AgreesWithPython(cl)
    requires |t| > 0 && AllWord(t)
    ensures Initials(t, cl) == [t[0], '.']
  {
    assert IsFirstWord(t, 0, cl.word);
    assert '-' !in t && '.' !in t && NoSpace(t, cl.space);
    SingleTokenInitial(t, cl);
    ExtractInitialOfToken(t, 0, cl.word);
  }

  /** `extract_initial('First')` is 'F.'. */
  lemma FirstGivesF(cl: Classes)
    requires cl.word('F')
    ensures ExtractInitial("First", cl.word) == "F."
  {
    assert IsFirstWord("First", 0, cl.word);
    ExtractInitialOfToken("First", 0, cl.word);
  }

  /** A last name followed by two given names of word characters. */
  lemma TwoNames(last: string, first: string, middle: string, cl: Classes)
    requires AgreesWithPython(cl) && ',' !in last
    requires |first| > 0 && AllWord(first) && |middle| > 0 && AllWord(middle)
    ensures InitializeNames(last + ", " + first + " " + middle, cl) ==
            last + ", " + [first[0], '.', middle[0], '.']
  {
    assert last + ", " + first + " " + middle == last + ", " + (first + [' '] + middle);
    ByScan(last, first + [' '] + middle, cl);
    ScanTwoNames(first, middle, cl);
  }

  /** The scan of "First Middle" for given names of word characters. */
  lemma ScanTwoNames(first: string, middle: string, cl: Classes)
    requires AgreesWithPython(cl)
    requires |first| > 0 && AllWord(first) && |middle| > 0 && AllWord(middle)
    ensures Scan(first + [' '] + middle, false, cl) == [first[0], '.', middle[0], '.']
  {
    calc {
      Scan(first + [' '] + middle, false, cl);
      { ScanAtSeparator(first, ' ', middle, false, cl); }
      Scan(first, false, cl) + Scan([' '] + middle, false, cl);
      { ScanCons(' ', middle, false, cl); }
      Scan(first, false, cl) + Scan(middle, false, cl);
      { ScanName(first, cl); ScanName(middle, cl); }
      [first[0], '.', middle[0], '.'];
    }
  }

  /** A last name followed by one given name of word characters. */
  lemma OneGivenName(last: string, first: string, cl: Classes)
    requires AgreesWithPython(cl) && ',' !in last
    requires |first| > 0 && AllWord(first)
    ensures InitializeNames(last + ", " + first, cl) == last + ", " + [first[0], '.']
  {
    ByScan(last, first, cl);
    ScanName(first, cl);
  }

  /** A last name followed by a hyphenated given name. */
  lemma HyphenatedGivenName(last: string, first: string, second: string, cl: Classes)
    requires AgreesWithPython(cl) && ',' !in last
    requires |first| > 0 && AllWord(first) && |second| > 0 && AllWord(second)
    ensures InitializeNames(last + ", " + first + "-" + second, cl) ==
            last + ", " + [first[0], '.', '-', second[0], '.']
  {
    assert last + ", " + first + "-" + second == last + ", " + (first + ['-'] + second);
    ByScan(last, first + ['-'] + second, cl);
    ScanHyphenated(first, second, cl);
  }

  /** The scan of "First-Second" for given names of word characters. */
  lemma ScanHyphenated(first: string, second: string, cl: Classes)
    requires AgreesWithPython(cl)
    requires |first| > 0 && AllWord(first) && |second| > 0 && AllWord(second)
    ensures Scan(first + ['-'] + second, false, cl) == [first[0], '.', '-', second[0], '.']
  {
    calc {
      Scan(first + ['-'] + second, false, cl);
      { ScanAtSeparator(first, '-', second, false, cl); }
      Scan(first, false, cl) + Scan(['-'] + second, false, cl);
      { ScanCons('-', second, false, cl); }
      Scan(first, false, cl) + "-" + Scan(second, false, cl);
      { ScanName(first, cl); ScanName(second, cl); }
      [first[0], '.', '-', second[0], '.'];
    }
  }

  /** A last name followed by two given names already reduced to initials, each
      followed by a period, with a blank between them. */
  lemma TwoInitials(last: string, f: char, m: char, cl: Classes)
    requires AgreesWithPython(cl) && ',' !in last && SampleWord(f) && SampleWord(m)
    ensures InitializeNames(last + ", " + [f, '.', ' ', m, '.'], cl) == last + ", " + [f, '.', m, '.']
  {
    ByScan(last, [f, '.', ' ', m, '.'], cl);
    ScanTwoInitials(f, m, cl);
  }

  /** The scan of "F. M." for word characters F and M. */
  lemma ScanTwoInitials(f: char, m: char, cl: Classes)
    requires AgreesWithPython(cl) && SampleWord(f) && SampleWord(m)
    ensures Scan([f, '.', ' ', m, '.'], false, cl) == [f, '.', m, '.']
  {
    calc {
      Scan([f, '.', ' ', m, '.'], false, cl);
      { ScanCons(f, ['.', ' ', m, '.'], false, cl); }
      [f, '.'] + Scan(['.', ' ', m, '.'], true, cl);
      { ScanCons('.', [' ', m, '.'], true, cl); }
      [f, '.'] + Scan([' ', m, '.'], false, cl);
      { ScanCons(' ', [m, '.'], false, cl); }
      [f, '.'] + Scan([m, '.'], false, cl);
      { ScanCons(m, ['.'], false, cl); }
      [f, '.'] + ([m, '.'] + Scan(['.'], true, cl));
      { ScanCons('.', [], true, cl); assert ['.'] + [] == ['.']; }
      [f, '.'] + ([m, '.'] + Scan([], false, cl));
      [f, '.', m, '.'];
    }
  }

  /** 'Last, First Middle' becomes 'Last, F.M.'. */
  lemma FirstMiddle(cl: Classes)
    requires AgreesWithPython(cl)
    ensures InitializeNames("Last, First Middle", cl) == "Last, F.M."
  {
    assert "Last, First Middle" == "Last" + ", " + "First" + " " + "Middle";
    assert AllWord("First") && AllWord("Middle");
    assert "Last" + ", " + ['F', '.', 'M', '.'] == "Last, F.M.";
    TwoNames("Last", "First", "Middle", cl);
  }

  /** 'Last, F. M.' becomes 'Last, F.M.'. */
  lemma AlreadyInitialed(cl: Classes)
    requires AgreesWithPython(cl)
    ensures InitializeNames("Last, F. M.", cl) == "Last, F.M."
  {
    assert "Last, F. M." == "Last" + ", " + ['F', '.', ' ', 'M', '.'];
    assert "Last" + ", " + ['F', '.', 'M', '.'] == "Last, F.M.";
    TwoInitials("Last", 'F', 'M', cl);
  }

  /** 'Last' is returned as it is. */
  lemma LastOnly(cl: Classes)
    ensures InitializeNames("Last", cl) == "Last"
  {
    assert ',' !in "Last";
  }

  /** 'Last, Hyphenated-First' becomes 'Last, H.-F.'. */
  lemma HyphenatedFirst(cl: Classes)
    requires AgreesWithPython(cl)
    ensures InitializeNames("Last, Hyphenated-First", cl) == "Last, H.-F."
  {
    assert "Last, Hyphenated-First" == "Last" + ", " + "Hyphenated" + "-" + "First";
    assert AllWord("Hyphenated") && AllWord("First");
    assert "Last" + ", " + ['H', '.', '-', 'F', '.'] == "Last, H.-F.";
    HyphenatedGivenName("Last", "Hyphenated", "First", cl);
  }

  /** 'Compound Last, First M' becomes 'Compound Last, F.M.'. */
  lemma CompoundLast(cl: Classes)
    requires AgreesWithPython(cl)
    ensures InitializeNames("Compound Last, First M", cl) == "Compound Last, F.M."
  {
    assert "Compound Last, First M" == "Compound Last" + ", " + "First" + " " + "M";
    assert ',' !in "Compound Last";
    assert AllWord("First") && AllWord("M");
    assert "Compound Last" + ", " + ['F', '.', 'M', '.'] == "Compound Last, F.M.";
    TwoNames("Compound Last", "First", "M", cl);
  }

  /** 'Hyphenated-Last, First' becomes 'Hyphenated-Last, F.'. */
  lemma HyphenatedLast(cl: Classes)
    requires AgreesWithPython(cl)
    ensures InitializeNames("Hyphenated-Last, First", cl) == "Hyphenated-Last, F."
  {
    assert "Hyphenated-Last, First" == "Hyphenated-Last" + ", " + "First";
    assert ',' !in "Hyphenated-Last";
    assert AllWord("First");
    assert "Hyphenated-Last" + ", " + ['F', '.'] == "Hyphenated-Last, F.";
    OneGivenName("Hyphenated-Last", "First", cl);
  }

  /** '宮崎 駿', written without a comma, is returned as it is. */
  lemma NoCommaCjk(cl: Classes)
    ensures InitializeNames("宮崎 駿", cl) == "宮崎 駿"
  {
    assert ',' !in "宮崎 駿";
  }

  /** 'Гребенщиков, Борис' becomes 'Гребенщиков, Б.': Cyrillic letters are word
      characters. */
  lemma Cyrillic(cl: Classes)
    requires AgreesWithPython(cl)
    ensures InitializeNames("Гребенщиков, Борис", cl) == "Гребенщиков, Б."
  {
    assert "Гребенщиков, Борис" == "Гребенщиков" + ", " + "Борис";
    assert ',' !in "Гребенщиков";
    assert AllWord("Борис");
    assert "Гребенщиков" + ", " + ['Б', '.'] == "Гребенщиков, Б.";
    OneGivenName("Гребенщиков", "Борис", cl);
  }

  /** 'Last,' becomes 'Last, ': a comma with no given names after it. */
  lemma CommaWithoutGivenNames(cl: Classes)
    requires PythonLike(cl)
    ensures InitializeNames("Last,", cl) == "Last, "
  {
    assert "Last," == "Last" + [','] + [];
    assert "Last" + ", " + [] == "Last, ";
    InitializeNamesOfParts("Last", [], cl);
    InitialsIsScan([], cl);
  }
}
