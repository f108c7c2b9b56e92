/** What the results page reads out of the parsed dictionary: each attribute
    with the fallback "N/A" when the model did not mention it, and the
    confidence percentage converted to a whole number. */
module Display {
  import opened Wrappers
  import opened PyStr
  import opened ResponseParser

  /** The text shown for an attribute the reply did not contain. */
  const NotAvailable: string := "N/A"

  /** The name under which the model reports its confidence. */
  const ConfidenceLabel: string := "Confidence Level"

  /** The value assumed when the confidence is missing. */
  const ConfidenceDefault: string := "0%"

  /** The most decimal digits `int()` and `str()` convert: Python's default
      `sys.int_info.default_max_str_digits` (since 3.11, and 3.10.7). Leading
      zeros count; a longer numeral raises `ValueError`. */
  const MaxStrDigits: nat := 4300

  /** `info.get(key, default)`: never fails; the stored value when there is
      one, the default otherwise. */
  function Get(info: Attributes, key: string, default: string): (r: string)
    ensures key in info ==> r == info[key]
    ensures key !in info ==> r == default
  {
    if key in info then info[key] else default
  }

  // ---------------------------------------------------------------------
  // int() on decimal text
  // ---------------------------------------------------------------------

  predicate IsDigit(c: char) {
    '0' <= c <= '9'
  }

  predicate AllDigits(s: string) {
    forall i :: 0 <= i < |s| ==> IsDigit(s[i])
  }

  /** The number a string of decimal digits denotes, most significant first. */
  function DigitsValue(s: string): nat
    requires AllDigits(s)
    decreases |s|
  {
    if |s| == 0 then 0
    else DigitsValue(s[..|s| - 1]) * 10 + (s[|s| - 1] as int - '0' as int)
  }

  /** An unsigned decimal numeral: at least one digit and nothing else. */
  function ParseDigits(s: string): (r: Option<nat>)
    ensures r.Some? <==> |s| > 0 && AllDigits(s)
  {
    if |s| > 0 && AllDigits(s) then Some(DigitsValue(s)) else None
  }

  /** The text `int()` accepts once the surrounding whitespace is gone: an
      optional `+` or `-` sign followed by at least one and at most
      `MaxStrDigits` decimal digits. */
  predicate IsIntLiteral(t: string) {
    |t| > 0 &&
    if t[0] == '+' || t[0] == '-' then
      |t| > 1 && AllDigits(t[1..]) && |t| - 1 <= MaxStrDigits
    else
      AllDigits(t) && |t| <= MaxStrDigits
  }

  /** Python's `int(s)` on text with ASCII digits: the whitespace `int()`
      skips is removed from both ends, and what remains must be an optional
      sign and decimal digits, no more of them than `MaxStrDigits`. `None`
      stands for the `ValueError` that `int` raises otherwise. */
  function ParseInt(s: string): (r: Option<int>)
    ensures r.Some? <==> IsIntLiteral(Trim(s, IntSpace))
  {
    var t := Trim(s, IntSpace);
    if |t| > 0 && (t[0] == '+' || t[0] == '-') then
      if |t| - 1 > MaxStrDigits then None else
      match ParseDigits(t[1..])
      case Some(n) =>
        var v: int := if t[0] == '-' then -(n as int) else n;
        Some(v)
      case None => None
    else if |t| > MaxStrDigits then None
    else
      match ParseDigits(t)
      case Some(n) => Some(n)
      case None => None
  }

  /** The decimal numeral of a natural number, without leading zeros. */
  function ShowNat(n: nat): (s: string)
    ensures |s| > 0 && AllDigits(s)
    ensures s[0] != '0' || n == 0
    decreases n
  {
    var last := (('0' as int) + n % 10) as char;
    if n < 10 then [last] else ShowNat(n / 10) + [last]
  }

  /** The numeral of an integer, with a `-` sign when negative (Python's `str`). */
  function ShowInt(i: int): string {
    if i < 0 then "-" + ShowNat(-i) else ShowNat(i)
  }

  /** Reading back a printed natural number gives the number. */
  lemma {:induction false} DigitsValueShowNat(n: nat)
    ensures DigitsValue(ShowNat(n)) == n
    decreases n
  {
    var s := ShowNat(n);
    if n >= 10 {
      DigitsValueShowNat(n / 10);
      assert s[..|s| - 1] == ShowNat(n / 10);
    }
  }

  lemma ParseDigitsShowNat(n: nat)
    ensures ParseDigits(ShowNat(n)) == Some(n)
  {
    DigitsValueShowNat(n);
  }

  /** A digit string that does not start with `0` denotes a positive number. */
  lemma {:induction false} DigitsValuePositive(s: string)
    requires |s| > 0 && AllDigits(s) && s[0] != '0'
    ensures DigitsValue(s) >= 1
    decreases |s|
  {
    if |s| > 1 {
      DigitsValuePositive(s[..|s| - 1]);
    }
  }

  /** Printing the number a canonical numeral denotes gives back the numeral,
      so `ParseDigits` and `ShowNat` are inverse on numerals without leading zeros. */
  lemma {:induction false} ShowNatDigitsValue(s: string)
    requires |s| > 0 && AllDigits(s) && (s[0] != '0' || |s| == 1)
    ensures ShowNat(DigitsValue(s)) == s
    decreases |s|
  {
    var n := DigitsValue(s);
    if |s| > 1 {
      var s' := s[..|s| - 1];
      DigitsValuePositive(s');
      ShowNatDigitsValue(s');
      assert n / 10 == DigitsValue(s') && n % 10 == s[|s| - 1] as int - '0' as int;
      assert s == s' + [s[|s| - 1]];
    }
  }

  /** A run of zeros denotes 0. */
  lemma {:induction false} DigitsValueZeros(zeros: string)
    requires forall i :: 0 <= i < |zeros| ==> zeros[i] == '0'
    ensures AllDigits(zeros) && DigitsValue(zeros) == 0
    decreases |zeros|
  {
    if |zeros| > 0 {
      DigitsValueZeros(zeros[..|zeros| - 1]);
    }
  }

  /** Leading zeros do not change the value: `int("087") == int("87")`. */
  lemma {:induction false} DigitsValueLeadingZeros(zeros: string, s: string)
    requires forall i :: 0 <= i < |zeros| ==> zeros[i] == '0'
    requires AllDigits(s)
    ensures AllDigits(zeros + s) && DigitsValue(zeros + s) == DigitsValue(s)
    decreases |s|
  {
    DigitsValueZeros(zeros);
    var t := zeros + s;
    assert AllDigits(t) by {
      forall i | 0 <= i < |t|
        ensures IsDigit(t[i])
      {
        if i < |zeros| {
          assert t[i] == zeros[i];
        } else {
          assert t[i] == s[i - |zeros|];
        }
      }
    }
    if |s| == 0 {
      assert t == zeros;
    } else {
      var s' := s[..|s| - 1];
      DigitsValueLeadingZeros(zeros, s');
      assert t[..|t| - 1] == zeros + s';
    }
  }

  /** Whitespace that `int()` skips around the text does not change its value. */
  lemma ParseIntPadding(w1: string, t: string, w2: string)
    requires All(w1, IntSpace) && All(w2, IntSpace)
    ensures ParseInt(w1 + t + w2) == ParseInt(t)
  {
    TrimPadding(w1, t, w2, IntSpace);
  }

  /** A string of digits within the limit is read as its value, leading
      zeros included. */
  lemma ParseIntDigits(digits: string)
    requires |digits| > 0 && AllDigits(digits) && |digits| <= MaxStrDigits
    ensures ParseInt(digits) == Some(DigitsValue(digits))
  {
    assert Trimmed(digits, IntSpace) by {
      assert IsDigit(digits[0]) && IsDigit(digits[|digits| - 1]);
    }
    TrimFixedPoint(digits, IntSpace);
  }

  /** After a sign, a string of digits within the limit is read as its
      value: `+` keeps it, `-` negates it. */
  lemma ParseIntSigned(t: string)
    requires |t| > 1 && (t[0] == '+' || t[0] == '-') && AllDigits(t[1..]) && |t| - 1 <= MaxStrDigits
    ensures ParseInt(t) == Some(if t[0] == '-' then -(DigitsValue(t[1..]) as int) else DigitsValue(t[1..]) as int)
  {
    assert Trim(t, IntSpace) == t by {
      assert IsDigit(t[1..][|t| - 2]) && t[1..][|t| - 2] == t[|t| - 1];
      TrimmedUnchanged(t, IntSpace);
    }
  }

  /** A numeral of more than `MaxStrDigits` digits is rejected, with or
      without a sign. */
  lemma ParseIntTooManyDigits(digits: string)
    requires AllDigits(digits) && |digits| > MaxStrDigits
    ensures ParseInt(digits) == None
    ensures ParseInt("+" + digits) == None && ParseInt("-" + digits) == None
  {
    assert IsDigit(digits[0]) && IsDigit(digits[|digits| - 1]);
    TrimmedUnchanged(digits, IntSpace);
    var plus, minus := "+" + digits, "-" + digits;
    assert plus[1..] == digits && minus[1..] == digits;
    assert plus[|plus| - 1] == digits[|digits| - 1] && minus[|minus| - 1] == digits[|digits| - 1];
    TrimmedUnchanged(plus, IntSpace);
    TrimmedUnchanged(minus, IntSpace);
  }

  /** The separators U+001C..U+001F are not skipped by `int()`: text that
      holds one anywhere is rejected. */
  lemma ParseIntRejectsSeparator(s: string, k: nat)
    requires k < |s| && 0x1C <= s[k] as int <= 0x1F
    ensures ParseInt(s) == None
  {
    TrimKeeps(s, IntSpace, k);
    var t := Trim(s, IntSpace);
    var i :| 0 <= i < |t| && t[i] == s[k];
    assert i > 0 ==> t[1..][i - 1] == t[i];
  }

  /** `int(str(i)) == i` for every integer whose numeral `str()` produces,
      that is, of at most `MaxStrDigits` digits. */
  lemma ParseIntShowInt(i: int)
    requires |ShowNat(if i < 0 then -i else i)| <= MaxStrDigits
    ensures ParseInt(ShowInt(i)) == Some(i)
  {
    var s := ShowInt(i);
    var digits := ShowNat(if i < 0 then -i else i);
    ParseDigitsShowNat(if i < 0 then -i else i);
    assert Trimmed(s, IntSpace) by {
      assert !IsIntSpace(s[0]) && !IsIntSpace(s[|s| - 1]);
    }
    TrimFixedPoint(s, IntSpace);
    if i < 0 {
      assert s[1..] == digits;
    }
  }

  // ---------------------------------------------------------------------
  // The confidence bar
  // ---------------------------------------------------------------------

  /** `int(info.get("Confidence Level", "0%").strip('%'))`. `None` is the
      `ValueError` that sends the page to its error message. */
  function Confidence(info: Attributes): (r: Option<int>)
    ensures ConfidenceLabel !in info ==> r == Some(0)
  {
    var raw := Get(info, ConfidenceLabel, ConfidenceDefault);
    var stripped := Trim(raw, Chars({'%'}));
    if ConfidenceLabel !in info then
      assert stripped == "0" by {
        assert TrimLeft(raw, Chars({'%'})) == raw;
        assert raw[..1] == "0";
      }
      ParseIntShowInt(0);
      ParseInt(stripped)
    else
      ParseInt(stripped)
  }

  /** A reported value that is some text wrapped in `%` signs converts as
      `int()` converts that text. */
  lemma ConfidenceOfText(info: Attributes, before: string, t: string, after: string)
    requires All(before, Chars({'%'})) && All(after, Chars({'%'})) && Trimmed(t, Chars({'%'}))
    requires ConfidenceLabel in info && info[ConfidenceLabel] == before + t + after
    ensures Confidence(info) == ParseInt(t)
  {
    TrimPadding(before, t, after, Chars({'%'}));
    TrimFixedPoint(t, Chars({'%'}));
  }

  /** A reported percentage "n%" (any number of `%` around it) yields `n`,
      when `n` has at most `MaxStrDigits` digits. */
  lemma ConfidenceOfPercent(info: Attributes, n: nat, before: string, after: string)
    requires All(before, Chars({'%'})) && All(after, Chars({'%'})) && |ShowNat(n)| <= MaxStrDigits
    requires ConfidenceLabel in info && info[ConfidenceLabel] == before + ShowNat(n) + after
    ensures Confidence(info) == Some(n)
  {
    var digits := ShowNat(n);
    assert Trimmed(digits, Chars({'%'}));
    ConfidenceOfText(info, before, digits, after);
    ParseIntShowInt(n);
  }

  /** A reported percentage of more than `MaxStrDigits` digits fails to
      convert. */
  lemma ConfidenceTooManyDigits(info: Attributes, digits: string, before: string, after: string)
    requires All(before, Chars({'%'})) && All(after, Chars({'%'}))
    requires AllDigits(digits) && |digits| > MaxStrDigits
    requires ConfidenceLabel in info && info[ConfidenceLabel] == before + digits + after
    ensures Confidence(info) == None
  {
    assert Trimmed(digits, Chars({'%'})) by {
      assert IsDigit(digits[0]) && IsDigit(digits[|digits| - 1]);
    }
    ConfidenceOfText(info, before, digits, after);
    ParseIntTooManyDigits(digits);
  }

  /** A reported confidence fails to convert exactly when, after removing the
      `%` signs and the whitespace `int()` skips, it is not a signed numeral
      of at most `MaxStrDigits` digits: "87.5%" and "high" are such values. */
  lemma ConfidenceFails(info: Attributes)
    requires ConfidenceLabel in info
    ensures Confidence(info).None? <==>
      !IsIntLiteral(Trim(Trim(info[ConfidenceLabel], Chars({'%'})), IntSpace))
  {
  }

  // ---------------------------------------------------------------------
  // The report
  // ---------------------------------------------------------------------

  /** Everything the results page shows, in the order it shows it. */
  datatype Report = Report(
    gender: string,
    ageEstimate: string,
    ethnicity: string,
    hairColor: string,
    eyeColor: string,
    glasses: string,
    headwear: string,
    mood: string,
    facialExpression: string,
    emotionsDetected: string,
    confidence: Option<int>)
  {
    /** The text fields, in page order. */
    function Texts(): seq<string> {
      [gender, ageEstimate, ethnicity, hairColor, eyeColor, glasses, headwear,
       mood, facialExpression, emotionsDetected]
    }
  }

  /** The attribute names the page looks up, in page order. */
  const Labels: seq<string> := [
    "Gender", "Age Estimate", "Ethnicity", "Hair Color", "Eye Color", "Glasses",
    "Headwear", "Mood", "Facial Expression", "Emotions Detected"]

  /** The results page: each text field falls back to "N/A", the confidence
      goes through `Confidence`. */
  function BuildReport(info: Attributes): (r: Report)
    ensures |r.Texts()| == |Labels|
    ensures forall i :: 0 <= i < |Labels| ==>
      (Labels[i] in info ==> r.Texts()[i] == info[Labels[i]]) &&
      (Labels[i] !in info ==> r.Texts()[i] == NotAvailable)
    ensures r.confidence == Confidence(info)
  {
    Report(
      Get(info, "Gender", NotAvailable),
      Get(info, "Age Estimate", NotAvailable),
      Get(info, "Ethnicity", NotAvailable),
      Get(info, "Hair Color", NotAvailable),
      Get(info, "Eye Color", NotAvailable),
      Get(info, "Glasses", NotAvailable),
      Get(info, "Headwear", NotAvailable),
      Get(info, "Mood", NotAvailable),
      Get(info, "Facial Expression", NotAvailable),
      Get(info, "Emotions Detected", NotAvailable),
      Confidence(info))
  }

  /** Every field shown for a parsed reply is free of surrounding whitespace:
      either a parsed value or the fallback. */
  lemma ReportStripped(text: string)
    ensures forall f :: f in BuildReport(Parse(text)).Texts() ==> IsStripped(f)
  {
    ParseWellFormed(text);
    assert IsStripped(NotAvailable);
    var r := BuildReport(Parse(text));
    forall f | f in r.Texts()
      ensures IsStripped(f)
    {
      var i :| 0 <= i < |r.Texts()| && r.Texts()[i] == f;
      if Labels[i] in Parse(text) {
        assert WellFormedEntry(Labels[i], Parse(text)[Labels[i]]);
      }
    }
  }

  /** An empty reply shows "N/A" everywhere and a confidence of 0. */
  lemma ReportOfEmptyReply()
    ensures var r := BuildReport(Parse(""));
            (forall f :: f in r.Texts() ==> f == NotAvailable) && r.confidence == Some(0)
  {
  }
}
