# Human Attribute Analyzer: response parser

The Human Attribute Analyzer sends a portrait to a vision model. The model
answers in free text, one `Name: value` line per attribute. `parse_response`
turns that reply into a dictionary from attribute name to value. The results
page then reads each attribute from the dictionary, falling back to `"N/A"`
when it is missing, and turns the `Confidence Level` percentage into a whole
number.

This project models that path in Dafny. The modules are:

- `PyStr`: the Python string operations the parser relies on.
  - `str.isspace`, over the full Unicode set Python uses.
  - `strip()` and `strip(chars)`, as `Trim` with a `StripSet`.
  - `split(sep)` and `split(sep, 1)`.
  - The whitespace `int()` skips, which differs from `isspace` on U+001C..U+001F.
- `ResponseParser`: `parse_response`, in two forms.
  - A functional definition, `Parse`, which folds the entries of the
    non-blank lines into a map.
  - A method, `ParseResponse`, with the source's two loops.
  - The two forms are proved equal.
- `Display`: the `get(key, "N/A")` lookups and the confidence conversion
  `int(get("Confidence Level", "0%").strip('%'))`. `ParseInt` models
  Python's `int()` on text whose digits are ASCII, including its default limit
  of 4300 digits (`MaxStrDigits`). The results page is built as a `Report`.
- `ParserExamples`: concrete replies and what they parse to.

The reply text is a parameter. The model call that produces it is outside
the model.

## Model

| member | source | states |
|---|---|---|
| ResponseParser.Parse | app.py:79-86 | Definition: the entries of the reply's lines stored in order into an empty dictionary. Characterised by ParseKeys, ParseLastWins, ParseWellFormed and ParseConcat. |
| ResponseParser.Lines | app.py:81 | Definition: the stripped, non-blank pieces of the reply split on `'\n'`. Characterised by LinesDropLeading, LinesDropTrailing and NonBlankConcat. |
| ResponseParser.NonBlank | app.py:81 | The comprehension keeps at most as many lines as there are pieces, and every line it keeps is non-empty and stripped. Characterised by NonBlankConcat. |
| ResponseParser.Entries | app.py:82-85 | There is at most one entry per line. Characterised by EntriesFromLines and EntriesCount. |
| ResponseParser.Store | app.py:85 | Definition: the loop's dictionary assignments, in order. Characterised by StoreKeys, StoreLastWins and StoreOverrides. |
| ResponseParser.ParseResponse | app.py:79-86 | The loop over the stripped lines builds exactly the map `Parse` defines. Every name in it holds no colon, and every name and value is stripped. |
| ResponseParser.StrippedLines | app.py:81 | The list comprehension yields exactly the stripped, non-blank pieces of the reply split on `'\n'`, in order. |
| ResponseParser.StoreNextLine | app.py:82-85 | Handling one more line stores that line's entry last, or changes nothing when the line has no colon. |
| ResponseParser.ParseLine | app.py:83-85 | A line yields an entry exactly when it holds a colon. The entry's name never holds a colon. |
| ResponseParser.ParseLineFirstColon | app.py:84-85 | For a colon-free name, `name + ":" + value` yields `(strip(name), strip(value))`, even when the value itself holds colons. |
| ResponseParser.ParseKeys | app.py:80-86 | A string is a key of the result if and only if it is the stripped text before the first colon of some non-blank line. |
| ResponseParser.ParseKeyHasLine | app.py:80-86 | Every key of the result comes from some line of the reply. |
| ResponseParser.ParseLineHasKey | app.py:80-86 | Every line with a colon puts its name among the keys of the result. |
| ResponseParser.ParseWellFormed | app.py:84-85 | Every key of the result holds no colon. Every key and value has no whitespace at either end. |
| ResponseParser.ParseLastWins | app.py:85 | An entry that no later line overrides keeps its value. So for a repeated name the last line's value is kept. |
| ResponseParser.ParseSize | app.py:82-85 | The result has at most as many entries as there are non-blank lines holding a colon. |
| ResponseParser.ParseConcat | app.py:80-86 | Parsing `a + "\n" + b` gives the entries of `a`, overridden by those of `b`. |
| ResponseParser.ParseSingleLine | app.py:81-85 | A one-line reply yields that stripped line's entry, or the empty map when it has no colon. |
| ResponseParser.ParseEmpty | app.py:80-86 | The empty reply yields the empty dictionary. |
| ResponseParser.ParseIgnoresLine | app.py:81-83 | Inserting a blank line, or a line without a colon, between two lines of a reply does not change the result. |
| ResponseParser.ParseNoColon | app.py:83 | A single line without a colon yields the empty map. |
| ResponseParser.ParseStripInvariant | app.py:115 | Stripping the whole reply before parsing, as the caller does, never changes the result. |
| ResponseParser.LinesDropLeading | app.py:81 | Whitespace (newlines included) before a reply adds no line. |
| ResponseParser.LinesDropTrailing | app.py:81 | Whitespace (newlines included) after a reply adds no line. |
| ResponseParser.LinesDropFirst | app.py:81 | A single leading whitespace character adds no line. |
| ResponseParser.LinesDropLast | app.py:81 | A single trailing whitespace character adds no line. |
| ResponseParser.LinesDropNewline | app.py:81 | A trailing newline adds only a blank piece, which is dropped. |
| ResponseParser.LinesDropSpace | app.py:81 | Trailing non-newline whitespace only lengthens the last piece, which stripping undoes. |
| ResponseParser.NonBlankConcat | app.py:81 | The comprehension distributes over concatenation of the split pieces. |
| ResponseParser.EntriesFromLines | app.py:82-85 | A pair is among the parsed entries if and only if some line parses to it. |
| ResponseParser.EntriesCount | app.py:83 | The number of entries equals the number of lines holding a colon. |
| ResponseParser.EntriesConcat | app.py:82-85 | The entries of two blocks of lines are the entries of each, in order. |
| ResponseParser.EntriesSingle | app.py:83-85 | One line contributes its entry, or nothing when it has no colon. |
| ResponseParser.ParseLineWellFormed | app.py:84-85 | An entry's name holds no colon, and both name and value are stripped. |
| ResponseParser.EntriesWellFormed | app.py:84-85 | Every entry of every line is well formed. |
| ResponseParser.StoreSnoc | app.py:85 | Storing one more entry is one more dictionary assignment. |
| ResponseParser.StoreConcat | app.py:82-85 | Storing two runs of entries is storing the first, then the second. |
| ResponseParser.StoreOverrides | app.py:85 | Storing onto a dictionary overrides it with the stored entries: the starting dictionary, overridden by the fold started from empty. |
| ResponseParser.StoreKeys | app.py:85 | After storing, a name is a key if and only if it was a key before or some entry carries it. |
| ResponseParser.StoreUntouched | app.py:85 | A name that no entry carries keeps its previous value. |
| ResponseParser.StoreLastWins | app.py:85 | An entry not followed by another with the same name is the value stored. |
| ResponseParser.StoreSize | app.py:85 | Storing n entries adds at most n keys. |
| ResponseParser.StoreWellFormed | app.py:85 | Storing well-formed entries onto a well-formed dictionary keeps it well formed. |
| PyStr.IsWhitespace | app.py:81 | Definition: the code points `str.isspace` accepts, which `strip()` removes. |
| PyStr.IsIntSpace | app.py:189 | Definition: the whitespace `int()` skips, which is `isspace` without U+001C..U+001F. |
| PyStr.TrimLeft | app.py:81 | `lstrip` never lengthens the text, and what it leaves does not start with a dropped character. |
| PyStr.TrimRight | app.py:81 | `rstrip` never lengthens the text, and what it leaves does not end with a dropped character. |
| PyStr.Strip | app.py:81 | Definition: `strip()` is `Trim` with the `isspace` set. Characterised by TrimIsSlice and TrimFixedPoint. |
| PyStr.TrimLeftKeeps | app.py:189 | `lstrip` never removes a kept character. |
| PyStr.TrimRightKeeps | app.py:189 | `rstrip` never removes a kept character. |
| PyStr.TrimKeeps | app.py:189 | `strip` never removes a kept character, wherever it stands. |
| PyStr.TrimmedUnchanged | app.py:81 | Text whose ends are kept characters is its own strip. |
| PyStr.Trim | app.py:81 | `strip` leaves no dropped character at either end and never lengthens the text. |
| PyStr.TrimIsSlice | app.py:81 | `strip` removes only a prefix and a suffix made entirely of dropped characters. |
| PyStr.TrimSubset | app.py:84-85 | `strip` adds no character, so a colon-free name stays colon-free. |
| PyStr.TrimPadding | app.py:81 | Padding text on both sides with dropped characters does not change its strip. |
| PyStr.TrimFixedPoint | app.py:81 | A text is its own strip if and only if neither end is a dropped character. Stripping twice equals stripping once. |
| PyStr.TrimLeftIsSuffix | app.py:81 | `lstrip` removes exactly a prefix of dropped characters. |
| PyStr.TrimRightIsPrefix | app.py:81 | `rstrip` removes exactly a suffix of dropped characters. |
| PyStr.TrimLeftPrepend | app.py:81 | Dropped characters added in front are removed by `lstrip`. |
| PyStr.TrimRightAppend | app.py:81 | Dropped characters added behind are removed by `rstrip`. |
| PyStr.TrimLeftAppend | app.py:81 | `lstrip` of `s + w` is `lstrip(s) + w` when `s` holds a kept character, and `lstrip(w)` otherwise. |
| PyStr.Split | app.py:81 | `split('\n')` yields at least one piece, and no piece holds the separator. |
| PyStr.JoinSplit | app.py:81 | Joining the pieces of `split(sep)` with `sep` gives back the text. |
| PyStr.SplitJoin | app.py:81 | Splitting the join of separator-free pieces gives back the pieces. |
| PyStr.SplitConcat | app.py:81 | Splitting `a + sep + b` gives the pieces of `a` followed by those of `b`. |
| PyStr.SplitSnoc | app.py:81 | Appending a non-separator character only lengthens the last piece. |
| PyStr.SplitNoSeparator | app.py:81 | A text without the separator splits into itself alone. |
| PyStr.SplitOnce | app.py:84 | `split(":", 1)` gives the text before the first colon and everything after it. The text is their concatenation around the colon, and the first part is colon-free. |
| PyStr.SplitOnceUnique | app.py:84 | Any decomposition around a colon with a colon-free left side is the one `split(":", 1)` returns. |
| Display.Get | app.py:169-186 | `get(key, default)` returns the stored value when the key is present and the default otherwise. |
| Display.BuildReport | app.py:169-189 | Each of the ten fields shows the parsed value for its label, or `"N/A"` when the label is missing. The confidence is `Confidence` of the same dictionary. |
| Display.ReportStripped | app.py:115-186 | For any reply, every text field on the page has no whitespace at either end. |
| Display.ReportOfEmptyReply | app.py:169-189 | An empty reply shows `"N/A"` in every field and a confidence of 0. |
| Display.Confidence | app.py:189 | A missing `Confidence Level` gives 0, through the default `"0%"`. The present case is characterised by ConfidenceOfText and ConfidenceFails. |
| Display.ConfidenceOfText | app.py:189 | A value made of some text with runs of `%` around it converts exactly as `int()` converts that text. |
| Display.ConfidenceFails | app.py:189 | A present value fails to convert if and only if, once the `%` signs and the whitespace `int()` skips are removed, it is not a signed numeral of at most 4300 digits. |
| Display.ConfidenceTooManyDigits | app.py:189 | A value of more than 4300 digits wrapped in `%` signs fails to convert. |
| Display.ConfidenceOfPercent | app.py:189 | A value that is the numeral of n, of at most 4300 digits, wrapped in any run of `%` signs gives n. |
| Display.ParseDigits | app.py:189 | Digit text is accepted if and only if it is nonempty and all ASCII digits. |
| Display.ParseInt | app.py:189 | `int()` succeeds if and only if the text, once the whitespace `int()` skips is removed, is an optional sign followed by at least one and at most 4300 digits. |
| Display.ParseIntPadding | app.py:189 | Whitespace `int()` skips, around any text, does not change the result. |
| Display.ParseIntDigits | app.py:189 | A digit string of at most 4300 digits is read as its value, leading zeros included. |
| Display.ParseIntTooManyDigits | app.py:189 | A digit string of more than 4300 digits is rejected, with or without a sign. |
| Display.ParseIntSigned | app.py:189 | After a `+` a digit string of at most 4300 digits is read as its value, and after a `-` as its negation. |
| Display.ParseIntRejectsSeparator | app.py:189 | Text that holds any of U+001C..U+001F is rejected by `int()`, although `strip()` treats those characters as whitespace. |
| Display.DigitsValueZeros | app.py:189 | A run of zeros denotes 0. |
| Display.DigitsValueLeadingZeros | app.py:189 | Leading zeros do not change the value of a digit string. |
| Display.ShowNat | app.py:189 | The printed numeral is nonempty, all digits, and has no leading zero. |
| Display.DigitsValueShowNat | app.py:189 | Reading back a printed natural number gives the number. |
| Display.ParseDigitsShowNat | app.py:189 | Parsing a printed natural number succeeds with the number. |
| Display.DigitsValuePositive | app.py:189 | A digit string not starting with `0` denotes a positive number. |
| Display.ShowNatDigitsValue | app.py:189 | Printing the value of a canonical numeral gives back the numeral. |
| Display.ParseIntShowInt | app.py:189 | `int(str(i)) == i` for every integer whose numeral has at most 4300 digits, which are all the integers `str()` prints. |
| ParserExamples.ParseNameValueLine | app.py:81-85 | A single `name:value` line with non-blank ends parses to `{strip(name): strip(value)}`. |
| ParserExamples.StripAfterSpace | app.py:85 | Stripping `" " + s` for an already stripped `s` gives `s`. |
| ParserExamples.ParseSpacedLine | app.py:81-85 | The requested answer shape `Name: value` parses to `{Name: value}`. |
| ParserExamples.FirstColonOnly | app.py:84 | `"A: B: C"` parses to `{"A": "B: C"}`. |
| ParserExamples.FirstColonOnlyHeadwear | app.py:84 | `"Headwear: Yes, type: cap"` parses to `{"Headwear": "Yes, type: cap"}`. |
| ParserExamples.SameNameTwice | app.py:85 | Two lines with the same name keep the second value. |
| ParserExamples.DuplicateNameLastWins | app.py:85 | `"Mood: Happy\nMood: Calm"` parses to `{"Mood": "Calm"}`. |
| ParserExamples.ParseTwoEntries | app.py:80-86 | Two single-entry replies joined by a newline give both entries, the second winning on a shared name. |
| ParserExamples.TwoNames | app.py:80-86 | Two lines with different names give both entries. |
| ParserExamples.TwoNamesWithBlankLine | app.py:81 | A blank line between two such lines changes nothing. |
| ParserExamples.BlankLineSkipped | app.py:81 | `"Gender: Female\n\nGlasses: No"` parses to the two entries. |
| ParserExamples.PercentValue | app.py:189 | A printed percentage `n%` is stripped and holds no colon or newline. |
| ParserExamples.ParseConfidenceLine | app.py:81-85 | The line `Confidence Level: n%` parses to that one entry. |
| ParserExamples.ConfidenceOfReply | app.py:189 | The line `Confidence Level: n%`, n of at most 4300 digits, shows a confidence of n. |
| ParserExamples.DigitsValue87 | app.py:189 | `"87"` denotes 87. |
| ParserExamples.ParseIntLeadingZero | app.py:189 | `int("087") == 87`. |
| ParserExamples.ParseIntWithSign | app.py:189 | `int("+87") == 87` and `int("-87") == -87`. |
| ParserExamples.ParseIntWithSpaces | app.py:189 | `int(" 87 ") == 87`. |
| ParserExamples.ParseIntTrailingSpace | app.py:189 | `int("87 ") == 87`. |
| ParserExamples.ConfidenceSpaceBeforePercent | app.py:189 | A confidence of `"87 %"` shows 87. |
| ParserExamples.ConfidenceDecimalFails | app.py:189 | A confidence of `"87.5%"` fails to convert. |
| ParserExamples.ConfidenceWordFails | app.py:189 | A confidence of `"high"` fails to convert. |
| ParserExamples.ParseIntLeadingSeparator | app.py:189 | `int("\x1c5")` fails to convert. |
| ParserExamples.ConfidenceSeparatorFails | app.py:189 | A confidence of `"87\x1c%"` fails to convert: the separator survives both strips. |

## Left out

- The Streamlit page layout, styling and widgets, including the metric, expander and progress-bar HTML at app.py:118-204. These are rendering only; `Report` records what is rendered.
- The Gemini client setup and the `generate_content` call at app.py:65-70 and app.py:114. They are network I/O, so the reply text is a parameter of every operation instead.
- `pil_image_to_base64` at app.py:73-76. This is image encoding through PIL and base64, and it has no effect on parsing.
- The prompt text at app.py:96-112. It only shapes what the model is asked to produce. `ParserExamples.ParseSpacedLine` covers the answer shape it requests.
- The JSON view and the `str(person_info)` download at app.py:198-204. These are serialisation for display and export.
- The order of the dictionary. A Python dict keeps insertion order, and a repeated name keeps its first position, but `Attributes` is an unordered `map`. Only the JSON view and the download at app.py:198-204 show that order.
- The exception handler at app.py:206-215. A conversion failure is modelled as `None` from `Display.Confidence`. When that happens, the portrait and the ten text fields (app.py:155-186) are already on the page and stay there. The confidence line, the bar and the technical details (app.py:190-204) are not shown, and the error message appears below. `Report` keeps the text fields and sets `confidence` to `None`.
- Display.ParseInt: weaker than Python's `int()`. It rejects `_` digit separators and non-ASCII decimal digits, which Python accepts. A reply using them is modelled as a conversion failure. The whitespace it skips is `int()`'s own set, not `strip()`'s. The digit limit is Python's default of 4300; a limit changed through `PYTHONINTMAXSTRDIGITS`, `-X int_max_str_digits` or `sys.set_int_max_str_digits`, and interpreters older than 3.10.7 that have no limit, are not modelled.
- Display.ShowInt: Python's `str()` raises beyond 4300 digits, but `ShowInt` prints every integer. ParseIntShowInt is stated only for the numerals `str()` produces.
- Display.Confidence: the integer is not clamped. A value such as `"150%"` gives 150, exactly as the source computes it. The bar width the page derives from it is not modelled.
