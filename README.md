# Author-name initialiser of adslib

`adslib.py` fetches a publication list from the ADS service and formats it. Along
the way it turns every author name of the form "Last, First Middle" into the
citation form "Last, F.M.". This project models that name initialiser and proves its
properties. The initialiser is made of two pure Python functions:

- `extract_initial` reduces one given-name token to its initial. It runs
  `re.search("[^ .]*?[^\W]", token)` and appends a period to the match. When nothing
  matches, the `AttributeError` branch returns the token unchanged.
- `initialize_names` splits the name at its first comma. With no comma, the name is
  returned unchanged. Otherwise the given-name part is processed in four steps:
  1. a blank is put before every hyphen, and every period becomes a blank;
  2. the result is split on whitespace;
  3. each token is reduced with `extract_initial`;
  4. the reduced tokens are joined with no separator.
  The result is the last name, then ", ", then the joined initials.

The Dafny project has three modules:

- `PyStr` (`text.dfy`) models the Python string built-ins the code is composed of:
  `split(',', 1)`, `replace`, `split()` and `"".join`.
- `AdsLib` (`adslib.dfy`) models the two functions and proves their properties.
  - The regular expression is modelled literally. `MatchFrom` is the lazy scan from
    one start position. `SearchFrom` tries start positions from left to right.
  - The two character classes the code borrows from Python are parameters, gathered
    in `Classes`. `word` stands for Unicode `\w` and `space` for the whitespace of
    `str.split()`.
  - `PythonLike` lists the only facts about those classes that the general
    properties rely on: a blank is whitespace, and neither `-` nor `.` is whitespace
    or a word character.
  - `Scan` is an independent one-pass definition of the given-name processing.
    `InitialsIsScan` proves that the code's pipeline equals `Scan`. Idempotence and
    the shape of the output are then proved on `Scan`.
- `Doctests` (`doctests.dfy`) proves the documented examples.
  - Each example is proved for every choice of classes that agrees with Python on
    the characters it uses: ASCII letters and digits, the underscore and the
    Cyrillic letters U+0400 to U+045F. Examples that need less ask for less:
    `FirstGivesF` needs only that 'F' is a word character, and the examples without
    given names need at most `PythonLike`.
  - `Sample` exhibits one such choice, so the examples' precondition can be met.

Some behaviour of the code is easy to miss. The model follows the code in each case:

- A token's characters before its first word character are kept, because the lazy
  prefix of the pattern consumes them. So "(First" gives "(F.", not a single letter.
- `\w` includes the underscore and digits, so "_x" gives "_." and "2nd" gives "2.".
- A token with no word character, such as "-" or "(", passes through unchanged.
- A comma followed by no given names gives the last name followed by ", ". For
  example, "Last," gives "Last, ", not "Last".
- A given name in CJK ideographs is a single token, so it is reduced to its first
  ideograph.

## Model

| member | source | states |
|---|---|---|
| PyStr.FirstIndex | adslib.py:63 | The position where `split(',', 1)` cuts: no separator occurs before it, and it is a separator unless it is the end of the text. |
| PyStr.SplitOnce | adslib.py:63-67 | `split(sep, 1)` gives one part exactly when `sep` does not occur, and that part is the whole text. Otherwise it gives two parts: the first is free of `sep`, and the parts joined by `sep` are the input. |
| PyStr.SplitOnceAt | adslib.py:63-65 | Only the first comma splits: a `sep`-free head followed by `sep` and any tail splits into exactly that head and that tail. |
| PyStr.Replace | adslib.py:71 | After `replace(pat, rep)` with a `rep` free of `pat`, no `pat` remains; a text without `pat` is left unchanged. |
| PyStr.ReplaceAppend | adslib.py:71 | Replacing one character distributes over concatenation. |
| PyStr.RunLength | adslib.py:71 | The leading run of non-whitespace is maximal: it has no whitespace, and whitespace follows it unless it reaches the end of the text. |
| PyStr.SplitWords | adslib.py:71 | Every token of `split()` is non-empty and contains no whitespace. |
| PyStr.SplitWordsAtSpace | adslib.py:71 | Splitting on whitespace at a whitespace character splits the token list: no token spans it. |
| PyStr.RunLengthAppend | adslib.py:71 | A run of non-whitespace that ends inside a text is not affected by what follows the text. |
| PyStr.Concat | adslib.py:76 | `"".join` is empty exactly when every joined string is empty. |
| PyStr.ConcatAppend | adslib.py:76 | Joining distributes over the concatenation of the lists joined. |
| AdsLib.MatchFrom | adslib.py:35 | The lazy match of `[^ .]*?[^\W]` from a given position. If it succeeds, it ends just after a word character and everything before that is neither a word character nor a blank or period. If it fails, every later word character has a blank or period before it. |
| AdsLib.SearchFrom | adslib.py:35 | `re.search` finds nothing exactly when the text has no word character. Otherwise the match ends just after the first word character. The match contains no blank or period before that character, and it starts at the search start or just after a blank or period. |
| AdsLib.Search | adslib.py:35 | `re.search` finds nothing exactly when the text has no word character. Otherwise the match ends just after the first word character and starts just after the last blank or period before it, or at 0. |
| AdsLib.ExtractInitial | adslib.py:27-40 | A token without word characters is returned unchanged (the `AttributeError` branch). Any other token gives a result that ends in a word character and a period. |
| AdsLib.RunStart | adslib.py:35 | Where the lazy prefix of the match starts: at 0 or just after a blank or period, with no blank or period between there and the first word character. |
| AdsLib.RunStartUnique | adslib.py:35 | The start of the match is determined by those two facts. |
| AdsLib.ExtractInitialMatch | adslib.py:34-36 | The initial of a token is exactly the run of non-blank, non-period characters ending at its first word character, followed by a period. |
| AdsLib.ExtractInitialOfToken | adslib.py:29-36 | For a token with no blank or period, the initial is the prefix up to and including the first word character, followed by a period. |
| AdsLib.Normalize | adslib.py:71 | After the two replacements, no period remains in the given names. |
| AdsLib.ExtractAll | adslib.py:73-74 | The list comprehension gives exactly one initial per token, in token order. |
| AdsLib.InitializeNames | adslib.py:42-84 | A name without a comma is returned unchanged. Otherwise the result starts with the text before the first comma, copied verbatim, followed by ", ". |
| AdsLib.ScanIdempotent | adslib.py:71-76 | Processing already-processed given names changes nothing. |
| AdsLib.NormalizeCons | adslib.py:71 | The replacements act character by character: a hyphen becomes " -", a period becomes a blank, and every other character is kept. |
| AdsLib.ScanTokensOfNormalize | adslib.py:71-76 | Scanning the normalized given names token by token is the one-pass reference `Scan` of the raw given names. |
| AdsLib.ScanTokensBoundary | adslib.py:71-76 | A token ends where whitespace begins, and what follows is processed afresh. |
| AdsLib.ScanTokensSeen | adslib.py:35-36 | Once a token has produced its initial, the rest of the token contributes nothing. |
| AdsLib.ScanTokensCopy | adslib.py:37-38 | A token without word characters contributes itself. |
| AdsLib.ScanTokensFresh | adslib.py:35-36 | A token contributes its prefix up to its first word character, then a period. |
| AdsLib.FirstWord | adslib.py:35 | The first word character of a token, or its length when it has none. |
| AdsLib.ScanTokensOfToken | adslib.py:34-40 | For a whole token, the token-wise scan produces exactly `extract_initial` of that token. |
| AdsLib.PipelineIsScanTokens | adslib.py:71-76 | On period-free text, splitting on whitespace, reducing every token and joining equals the token-wise scan. |
| AdsLib.InitialsIsScan | adslib.py:71-76 | The code's given-name pipeline (replace, replace, split, map, join) equals the one-pass reference `Scan`. |
| AdsLib.InitializeNamesAtComma | adslib.py:63-78 | With the first comma at position i, the result is the text before it, then ", ", then the reference scan of the text after it. |
| AdsLib.LastNamePreserved | adslib.py:63-78 | The text before the first comma is the same in the result as in the input, including the case where there is no comma. |
| AdsLib.LastNameOfParts | adslib.py:63-78 | A comma-free last name, a comma and any given names give a result whose text before the first comma is that last name. |
| AdsLib.LastNameBeforeComma | adslib.py:78 | The ", " put after a comma-free last name is where the result splits again. |
| AdsLib.ScanAtSeparator | adslib.py:71 | A hyphen, a period or whitespace ends the current token, and what follows is processed afresh. |
| AdsLib.HyphenStartsToken | adslib.py:51-52 | A hyphen in the given names starts a new token and is kept in front of that token's initial. The initials on both sides are joined around the hyphen. |
| AdsLib.SeparatorJoinsInitials | adslib.py:47-48 | A period or whitespace only separates tokens: the initials on either side are joined with nothing between them. |
| AdsLib.SingleTokenInitial | adslib.py:71-76 | A single given name with no hyphen, period or whitespace yields exactly its `extract_initial`. |
| AdsLib.NoGivenNames | adslib.py:63-78 | When only periods and whitespace follow the first comma, the result is the last name followed by ", ". |
| AdsLib.ScanOfSeparators | adslib.py:71-76 | Periods and whitespace alone produce no initials. |
| AdsLib.InitializeNamesIdempotent | adslib.py:47-48 | Applying `initialize_names` to its own result changes nothing. |
| AdsLib.StableOnScanned | adslib.py:63-78 | A last name, ", " and the initials of any given names come out of `initialize_names` unchanged. |
| AdsLib.InitializeNamesOfParts | adslib.py:63-78 | A comma-free last name, a comma and given names give the last name, ", " and the initials of the given names. |
| AdsLib.WellInitialedAppend | adslib.py:76 | Joining two strings that each have the shape of initials gives a string with that shape. |
| AdsLib.ScanWellInitialed | adslib.py:71-76 | Whatever the given names, the initials contain no whitespace. Every word character in them is followed by a period, and every period follows a word character. |
| Doctests.FirstGivesF | adslib.py:29-31 | `extract_initial('First')` is 'F.'. |
| Doctests.FirstMiddle | adslib.py:45-46 | 'Last, First Middle' gives 'Last, F.M.'. |
| Doctests.AlreadyInitialed | adslib.py:47-48 | 'Last, F. M.' gives 'Last, F.M.'. |
| Doctests.LastOnly | adslib.py:49-50 | 'Last' is returned unchanged. |
| Doctests.HyphenatedFirst | adslib.py:51-52 | 'Last, Hyphenated-First' gives 'Last, H.-F.'. |
| Doctests.CompoundLast | adslib.py:53-54 | 'Compound Last, First M' gives 'Compound Last, F.M.'. |
| Doctests.HyphenatedLast | adslib.py:55-56 | 'Hyphenated-Last, First' gives 'Hyphenated-Last, F.'. |
| Doctests.NoCommaCjk | adslib.py:57-58 | '宮崎 駿' is returned unchanged. |
| Doctests.Cyrillic | adslib.py:59-60 | 'Гребенщиков, Борис' gives 'Гребенщиков, Б.'. |
| Doctests.CommaWithoutGivenNames | adslib.py:63-78 | 'Last,' gives 'Last, ': a comma with no given names after it. |
| Doctests.TwoNames | adslib.py:71-78 | A last name and two given names of word characters give the last name, ", " and the two first letters, each followed by a period. |
| Doctests.OneGivenName | adslib.py:71-78 | A last name and one given name of word characters give the last name, ", " and that name's first letter followed by a period. |
| Doctests.HyphenatedGivenName | adslib.py:71-78 | A hyphenated given name gives both first letters, each followed by a period, with the hyphen between them. |
| Doctests.TwoInitials | adslib.py:71-78 | Given names already written as initials ("F. M.") come back as "F.M.". |
| Doctests.OneName | adslib.py:71-76 | A single given name of word characters yields its first letter and a period. |

## Left out

- Reading the developer key from `~/.ads/dev_key` and exiting when it is missing (adslib.py:92-105): file input and process exit.
- Command-line parsing with `argparse` (adslib.py:113-124): library plumbing with no logic of its own.
- The paginated HTTP queries and rate-limit reporting (adslib.py:132-171): network input from a remote service.
- Building and writing the HTML list (adslib.py:179-227): it depends on the JSON layout of a remote response, on `calendar.month_abbr` and on file output. Its only use of the core is applying `initialize_names` to each author at adslib.py:209.
- The BibTeX export (adslib.py:234-249): a network request and a file write.
- The `doctest` runner (adslib.py:253-255).
- The exact Unicode tables behind `\w` and `str.split()` whitespace: they are parameters (`Classes`). The general properties assume only `PythonLike`. The examples assume agreement with Python on ASCII letters and digits, the underscore and the Cyrillic letters U+0400 to U+045F, all of which are `\w` in Python.
- Python exceptions: the `AttributeError` raised by `None.group(0)` is modelled as the `None` case of the search, which is the only exception the code handles.
- AdsLib.InitializeNames: its own contract states pass-through and the preserved prefix. The full result, including the initials, is stated by `InitializeNamesAtComma` and `InitialsIsScan`.
