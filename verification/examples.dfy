/** Concrete replies and what they parse to. */
module ParserExamples {
  import opened Wrappers
  import opened PyStr
  import opened ResponseParser
  import opened Display

  /** A "Name: value" line whose ends are not whitespace parses to exactly
      one entry, however many colons the value holds. */
  lemma ParseNameValueLine(name: string, value: string)
    requires ':' !in name && '\n' !in name && '\n' !in value
    requires |name| > 0 && !IsWhitespace(name[0])
    requires |value| > 0 && !IsWhitespace(value[|value| - 1])
    ensures Parse(name + ":" + value) == map[Strip(name) := Strip(value)]
  {
    var line := name + ":" + value;
    assert line[0] == name[0] && line[|line| - 1] == value[|value| - 1];
    assert '\n' !in line;
    TrimFixedPoint(line, Whitespace);
    ParseSingleLine(line);
    ParseLineFirstColon(name, value);
  }

  /** Stripping text that starts with one space. */
  lemma StripAfterSpace(s: string)
    requires IsStripped(s)
    ensures Strip(" " + s) == s
  {
    TrimPadding(" ", s, "", Whitespace);
    assert " " + s + "" == " " + s;
    TrimFixedPoint(s, Whitespace);
  }

  /** The shape the model is asked to answer in: "Name: value". */
  lemma ParseSpacedLine(name: string, value: string)
    requires ':' !in name && '\n' !in name && '\n' !in value
    requires |name| > 0 && IsStripped(name)
    requires |value| > 0 && IsStripped(value)
    ensures Parse(name + ": " + value) == map[name := value]
  {
    assert name + ": " + value == name + ":" + (" " + value);
    ParseNameValueLine(name, " " + value);
    TrimFixedPoint(name, Whitespace);
    StripAfterSpace(value);
  }

  /** Everything after the first colon stays in the value. */
  lemma FirstColonOnly()
    ensures Parse("A: B: C") == map["A" := "B: C"]
  {
    assert "A: B: C" == "A" + ": " + "B: C";
    ParseSpacedLine("A", "B: C");
  }

  lemma FirstColonOnlyHeadwear()
    ensures Parse("Headwear: Yes, type: cap") == map["Headwear" := "Yes, type: cap"]
  {
    assert "Headwear: Yes, type: cap" == "Headwear" + ": " + "Yes, type: cap";
    ParseSpacedLine("Headwear", "Yes, type: cap");
  }

  /** Two lines with the same name: the later value is the one kept. */
  lemma SameNameTwice(name: string, first: string, second: string)
    requires ':' !in name && '\n' !in name && '\n' !in first && '\n' !in second
    requires |name| > 0 && IsStripped(name)
    requires |first| > 0 && IsStripped(first) && |second| > 0 && IsStripped(second)
    ensures Parse(name + ": " + first + "\n" + name + ": " + second) == map[name := second]
  {
    var a, b := name + ": " + first, name + ": " + second;
    assert name + ": " + first + "\n" + name + ": " + second == a + "\n" + b;
    ParseConcat(a, b);
    ParseSpacedLine(name, first);
    ParseSpacedLine(name, second);
  }

  lemma DuplicateNameLastWins()
    ensures Parse("Mood: Happy\nMood: Calm") == map["Mood" := "Calm"]
  {
    assert "Mood: Happy\nMood: Calm" == "Mood" + ": " + "Happy" + "\n" + "Mood" + ": " + "Calm";
    SameNameTwice("Mood", "Happy", "Calm");
  }

  /** Two replies with one entry each, joined by a newline, give both
      entries; the second wins when the names are the same. */
  lemma ParseTwoEntries(a: string, b: string, name1: string, value1: string, name2: string, value2: string)
    requires Parse(a) == map[name1 := value1] && Parse(b) == map[name2 := value2]
    ensures Parse(a + "\n" + b) == map[name1 := value1, name2 := value2]
  {
    ParseConcat(a, b);
    MapMerge(name1, value1, name2, value2);
  }

  lemma MapMerge(k1: string, v1: string, k2: string, v2: string)
    ensures map[k1 := v1] + map[k2 := v2] == map[k1 := v1, k2 := v2]
  {
  }

  /** Two lines with different names give two entries. */
  lemma TwoNames(name1: string, value1: string, name2: string, value2: string)
    requires ':' !in name1 && '\n' !in name1 && '\n' !in value1
    requires ':' !in name2 && '\n' !in name2 && '\n' !in value2
    requires |name1| > 0 && IsStripped(name1) && |value1| > 0 && IsStripped(value1)
    requires |name2| > 0 && IsStripped(name2) && |value2| > 0 && IsStripped(value2)
    requires name1 != name2
    ensures Parse(name1 + ": " + value1 + "\n" + name2 + ": " + value2)
         == map[name1 := value1, name2 := value2]
  {
    var a, b := name1 + ": " + value1, name2 + ": " + value2;
    assert name1 + ": " + value1 + "\n" + name2 + ": " + value2 == a + "\n" + b;
    ParseSpacedLine(name1, value1);
    ParseSpacedLine(name2, value2);
    ParseTwoEntries(a, b, name1, value1, name2, value2);
  }

  /** A blank line between two entries changes nothing. */
  lemma TwoNamesWithBlankLine(name1: string, value1: string, name2: string, value2: string)
    requires ':' !in name1 && '\n' !in name1 && '\n' !in value1
    requires ':' !in name2 && '\n' !in name2 && '\n' !in value2
    requires |name1| > 0 && IsStripped(name1) && |value1| > 0 && IsStripped(value1)
    requires |name2| > 0 && IsStripped(name2) && |value2| > 0 && IsStripped(value2)
    requires name1 != name2
    ensures Parse(name1 + ": " + value1 + "\n\n" + name2 + ": " + value2)
         == map[name1 := value1, name2 := value2]
  {
    var a, b := name1 + ": " + value1, name2 + ": " + value2;
    assert name1 + ": " + value1 + "\n\n" + name2 + ": " + value2 == a + "\n" + "" + "\n" + b;
    ParseIgnoresLine(a, "", b);
    assert a + "\n" + b == name1 + ": " + value1 + "\n" + name2 + ": " + value2;
    TwoNames(name1, value1, name2, value2);
  }

  lemma BlankLineSkipped()
    ensures Parse("Gender: Female\n\nGlasses: No") == map["Gender" := "Female", "Glasses" := "No"]
  {
    assert "Gender: Female\n\nGlasses: No" == "Gender" + ": " + "Female" + "\n\n" + "Glasses" + ": " + "No";
    TwoNamesWithBlankLine("Gender", "Female", "Glasses", "No");
  }

  /** A printed percentage is a stripped value without colon or newline. */
  lemma PercentValue(n: nat)
    ensures var value := ShowNat(n) + "%";
      |value| > 0 && IsStripped(value) && ':' !in value && '\n' !in value
  {
  }

  /** The reply line "Confidence Level: n%" parses to one entry. */
  lemma ParseConfidenceLine(n: nat)
    ensures Parse(ConfidenceLabel + ": " + ShowNat(n) + "%") == map[ConfidenceLabel := ShowNat(n) + "%"]
  {
    var value := ShowNat(n) + "%";
    PercentValue(n);
    assert ConfidenceLabel + ": " + ShowNat(n) + "%" == ConfidenceLabel + ": " + value;
    ParseSpacedLine(ConfidenceLabel, value);
  }

  /** A reply line "Confidence Level: n%" shows a confidence of `n`, for any
      `n` of at most `MaxStrDigits` digits. */
  lemma ConfidenceOfReply(n: nat)
    requires |ShowNat(n)| <= MaxStrDigits
    ensures Confidence(Parse(ConfidenceLabel + ": " + ShowNat(n) + "%")) == Some(n)
  {
    ParseConfidenceLine(n);
    assert "" + ShowNat(n) + "%" == ShowNat(n) + "%";
    ConfidenceOfPercent(map[ConfidenceLabel := ShowNat(n) + "%"], n, "", "%");
  }

  // ---------------------------------------------------------------------
  // Conversions the confidence line goes through
  // ---------------------------------------------------------------------

  lemma DigitsValue87()
    ensures AllDigits("87") && DigitsValue("87") == 87
  {
    assert ShowNat(87) == "87" by {
      assert ShowNat(8) == "8";
    }
    DigitsValueShowNat(87);
  }

  /** `int("087") == 87`: a leading zero is accepted. */
  lemma ParseIntLeadingZero()
    ensures ParseInt("087") == Some(87)
  {
    DigitsValue87();
    DigitsValueLeadingZeros("0", "87");
    assert "0" + "87" == "087";
    ParseIntDigits("087");
  }

  /** `int("+87") == 87` and `int("-87") == -87`. */
  lemma ParseIntWithSign()
    ensures ParseInt("+87") == Some(87) && ParseInt("-87") == Some(-87)
  {
    DigitsValue87();
    assert "+87"[1..] == "87" && "-87"[1..] == "87";
    ParseIntSigned("+87");
    ParseIntSigned("-87");
  }

  /** `int("87 ") == 87`: a trailing space is skipped. */
  lemma ParseIntTrailingSpace()
    ensures ParseInt("87 ") == Some(87)
  {
    DigitsValue87();
    ParseIntDigits("87");
    ParseIntPadding("", "87", " ");
    assert "" + "87" + " " == "87 ";
  }

  /** `int(" 87 ") == 87`: spaces on both sides are skipped. */
  lemma ParseIntWithSpaces()
    ensures ParseInt(" 87 ") == Some(87)
  {
    ParseIntTrailingSpace();
    ParseIntPadding(" ", "87 ", "");
    assert " " + "87 " + "" == " 87 ";
  }

  /** "87 %" shows 87: `strip('%')` leaves "87 ", and `int` skips the space. */
  lemma ConfidenceSpaceBeforePercent()
    ensures Confidence(map[ConfidenceLabel := "87 %"]) == Some(87)
  {
    var info := map[ConfidenceLabel := "87 %"];
    assert info[ConfidenceLabel] == "" + "87 " + "%";
    ConfidenceOfText(info, "", "87 ", "%");
    ParseIntTrailingSpace();
  }

  /** "87.5%" is not an integer: the conversion fails. */
  lemma ConfidenceDecimalFails()
    ensures Confidence(map[ConfidenceLabel := "87.5%"]) == None
  {
    var info := map[ConfidenceLabel := "87.5%"];
    assert info[ConfidenceLabel] == "" + "87.5" + "%";
    ConfidenceOfText(info, "", "87.5", "%");
    TrimmedUnchanged("87.5", IntSpace);
    assert !IsDigit("87.5"[2]);
  }

  /** A word in place of a number: the conversion fails. */
  lemma ConfidenceWordFails()
    ensures Confidence(map[ConfidenceLabel := "high"]) == None
  {
    var info := map[ConfidenceLabel := "high"];
    assert info[ConfidenceLabel] == "" + "high" + "";
    ConfidenceOfText(info, "", "high", "");
    TrimmedUnchanged("high", IntSpace);
    assert !IsDigit("high"[0]);
  }

  /** `int("\x1c5")` fails: U+001C is whitespace for `strip()` but not for `int()`. */
  lemma ParseIntLeadingSeparator()
    ensures ParseInt("\U{1C}5") == None
  {
    ParseIntRejectsSeparator("\U{1C}5", 0);
  }

  /** The file separator U+001C before the `%` survives both strips, so the
      conversion fails. */
  lemma ConfidenceSeparatorFails()
    ensures Confidence(map[ConfidenceLabel := "87\U{1C}%"]) == None
  {
    var info := map[ConfidenceLabel := "87\U{1C}%"];
    assert info[ConfidenceLabel] == "" + "87\U{1C}" + "%";
    ConfidenceOfText(info, "", "87\U{1C}", "%");
    ParseIntRejectsSeparator("87\U{1C}", 2);
  }
}
