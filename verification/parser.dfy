/** The response parser of app.py: the model's free-text reply becomes a map
    from attribute name to attribute value. The reply is split on newlines,
    every line is stripped, blank lines are dropped, and each remaining line
    that holds a colon is split at its first colon into a stripped name and a
    stripped value; a later line with the same name overwrites an earlier one. */
module ResponseParser {
  import opened Wrappers
  import opened PyStr

  /** The dictionary the parser returns: attribute name to attribute value. */
  type Attributes = map<string, string>

  /** One parsed line: an attribute name and its value. */
  type Entry = (string, string)

  /** Text with no whitespace at either end, as `str.strip()` leaves it. */
  predicate IsStripped(s: string) {
    Trimmed(s, Whitespace)
  }

  /** What every stored name and value satisfies: the name holds no colon and
      neither carries surrounding whitespace. */
  predicate WellFormedEntry(name: string, value: string) {
    ':' !in name && IsStripped(name) && IsStripped(value)
  }

  predicate WellFormed(m: Attributes) {
    forall k :: k in m ==> WellFormedEntry(k, m[k])
  }

  // ---------------------------------------------------------------------
  // Lines
  // ---------------------------------------------------------------------

  /** The comprehension `[line.strip() for line in pieces if line.strip()]`:
      every line it keeps is non-empty and stripped. */
  function NonBlank(pieces: seq<string>): (r: seq<string>)
    ensures |r| <= |pieces|
    ensures forall i :: 0 <= i < |r| ==> r[i] != "" && IsStripped(r[i])
    decreases |pieces|
  {
    if |pieces| == 0 then []
    else
      var line := Strip(pieces[0]);
      (if line == "" then [] else [line]) + NonBlank(pieces[1..])
  }

  /** The stripped, non-blank lines of a reply. */
  function Lines(text: string): seq<string> {
    NonBlank(Split(text, '\n'))
  }

  // ---------------------------------------------------------------------
  // One line
  // ---------------------------------------------------------------------

  /** One line's contribution: for a line holding a colon, the stripped text
      before the first colon and the stripped text after it; nothing otherwise. */
  function ParseLine(line: string): (r: Option<Entry>)
    ensures r.None? <==> ':' !in line
    ensures r.Some? ==> ':' !in r.value.0
  {
    if ':' in line then
      var (key, value) := SplitOnce(line, ':');
      TrimSubset(key, Whitespace, ':');
      Some((Strip(key), Strip(value)))
    else None
  }

  /** The attribute name a line defines, if any. */
  function KeyOf(line: string): Option<string> {
    match ParseLine(line)
    case Some((k, _)) => Some(k)
    case None => None
  }

  /** The entries of the lines that hold a colon, in order. */
  function Entries(lines: seq<string>): (r: seq<Entry>)
    ensures |r| <= |lines|
    decreases |lines|
  {
    if |lines| == 0 then []
    else
      (match ParseLine(lines[0]) case Some(e) => [e] case None => []) + Entries(lines[1..])
  }

  // ---------------------------------------------------------------------
  // The dictionary
  // ---------------------------------------------------------------------

  /** The assignments `attributes[key] = value`, left to right. */
  function Store(acc: Attributes, entries: seq<Entry>): Attributes
    decreases |entries|
  {
    if |entries| == 0 then acc
    else Store(acc[entries[0].0 := entries[0].1], entries[1..])
  }

  /** `parse_response` as a function. */
  function Parse(text: string): Attributes {
    Store(map[], Entries(Lines(text)))
  }

  /** How many lines hold a colon, i.e. how many assignments are made. */
  function ColonCount(lines: seq<string>): nat
    decreases |lines|
  {
    if |lines| == 0 then 0
    else (if ':' in lines[0] then 1 else 0) + ColonCount(lines[1..])
  }

  /** Line 81 as the source writes it: the comprehension over the pieces. */
  method StrippedLines(responseText: string) returns (lines: seq<string>)
    ensures lines == Lines(responseText)
  {
    var pieces := Split(responseText, '\n');
    lines := [];
    var i := 0;
    while i < |pieces|
      invariant 0 <= i <= |pieces|
      invariant lines == NonBlank(pieces[..i])
    {
      var line := Strip(pieces[i]);
      NonBlankConcat(pieces[..i], [pieces[i]]);
      assert pieces[..i + 1] == pieces[..i] + [pieces[i]];
      assert NonBlank([pieces[i]]) == (if line == "" then [] else [line]) + NonBlank([]);
      if line != "" {
        lines := lines + [line];
      }
      i := i + 1;
    }
    assert pieces[..|pieces|] == pieces;
  }

  /** `parse_response` as the source writes it: the stripped lines, then the
      loop that stores each colon line's entry. */
  method ParseResponse(responseText: string) returns (attributes: Attributes)
    ensures attributes == Parse(responseText)
    ensures WellFormed(attributes)
  {
    var lines := StrippedLines(responseText);
    attributes := map[];
    var j := 0;
    while j < |lines|
      invariant 0 <= j <= |lines|
      invariant attributes == Store(map[], Entries(lines[..j]))
    {
      var line := lines[j];
      StoreNextLine(lines, j);
      if ':' in line {
        var (key, value) := SplitOnce(line, ':');
        attributes := attributes[Strip(key) := Strip(value)];
      }
      j := j + 1;
    }
    assert lines[..|lines|] == lines;
    ParseWellFormed(responseText);
  }

  /** Folding one more line: its entry, if it has one, is stored last. */
  lemma StoreNextLine(lines: seq<string>, j: nat)
    requires j < |lines|
    ensures Store(map[], Entries(lines[..j + 1])) ==
      match ParseLine(lines[j])
      case Some(e) => Store(map[], Entries(lines[..j]))[e.0 := e.1]
      case None => Store(map[], Entries(lines[..j]))
  {
    EntriesConcat(lines[..j], [lines[j]]);
    EntriesSingle(lines[j]);
    assert lines[..j + 1] == lines[..j] + [lines[j]];
    match ParseLine(lines[j])
    case Some(e) =>
      StoreSnoc(map[], Entries(lines[..j]), e);
    case None =>
      assert Entries(lines[..j]) + [] == Entries(lines[..j]);
  }

  // ---------------------------------------------------------------------
  // Lemmas about the fold
  // ---------------------------------------------------------------------

  /** One more entry is one more assignment. */
  lemma {:induction false} StoreSnoc(acc: Attributes, entries: seq<Entry>, e: Entry)
    ensures Store(acc, entries + [e]) == Store(acc, entries)[e.0 := e.1]
    decreases |entries|
  {
    if |entries| == 0 {
      assert entries + [e] == [e];
    } else {
      assert (entries + [e])[1..] == entries[1..] + [e];
      StoreSnoc(acc[entries[0].0 := entries[0].1], entries[1..], e);
    }
  }

  /** Storing consecutive runs of entries is storing each run in turn. */
  lemma {:induction false} StoreConcat(acc: Attributes, a: seq<Entry>, b: seq<Entry>)
    ensures Store(acc, a + b) == Store(Store(acc, a), b)
    decreases |a|
  {
    if |a| == 0 {
      assert a + b == b;
    } else {
      assert (a + b)[1..] == a[1..] + b;
      StoreConcat(acc[a[0].0 := a[0].1], a[1..], b);
    }
  }

  /** The entries of a run override whatever was stored before it. */
  lemma {:induction false} StoreOverrides(acc: Attributes, entries: seq<Entry>)
    ensures Store(acc, entries) == acc + Store(map[], entries)
    decreases |entries|
  {
    if |entries| > 0 {
      var (k, v) := entries[0];
      StoreOverrides(acc[k := v], entries[1..]);
      StoreOverrides(map[k := v], entries[1..]);
      assert acc[k := v] == acc + map[k := v];
    }
  }

  /** A name is stored exactly when it was stored before or some entry names it. */
  lemma {:induction false} StoreKeys(acc: Attributes, entries: seq<Entry>, k: string)
    ensures k in Store(acc, entries) <==> k in acc || exists i :: 0 <= i < |entries| && entries[i].0 == k
    decreases |entries|
  {
    if |entries| > 0 {
      var rest := entries[1..];
      StoreKeys(acc[entries[0].0 := entries[0].1], rest, k);
      if exists i :: 0 <= i < |entries| && entries[i].0 == k {
        var i :| 0 <= i < |entries| && entries[i].0 == k;
        if i > 0 {
          assert rest[i - 1].0 == k;
        }
      }
      if exists i :: 0 <= i < |rest| && rest[i].0 == k {
        var i :| 0 <= i < |rest| && rest[i].0 == k;
        assert entries[i + 1].0 == k;
      }
    }
  }

  /** A name that no entry mentions keeps the value it had. */
  lemma {:induction false} StoreUntouched(acc: Attributes, entries: seq<Entry>, k: string)
    requires k in acc
    requires forall j :: 0 <= j < |entries| ==> entries[j].0 != k
    ensures k in Store(acc, entries) && Store(acc, entries)[k] == acc[k]
    decreases |entries|
  {
    if |entries| > 0 {
      StoreUntouched(acc[entries[0].0 := entries[0].1], entries[1..], k);
    }
  }

  /** Last write wins: the stored value is the one of the last entry naming the key. */
  lemma {:induction false} StoreLastWins(acc: Attributes, entries: seq<Entry>, i: nat)
    requires i < |entries|
    requires forall j :: i < j < |entries| ==> entries[j].0 != entries[i].0
    ensures entries[i].0 in Store(acc, entries) && Store(acc, entries)[entries[i].0] == entries[i].1
    decreases |entries|
  {
    if i == 0 {
      StoreUntouched(acc[entries[0].0 := entries[0].1], entries[1..], entries[0].0);
    } else {
      StoreLastWins(acc[entries[0].0 := entries[0].1], entries[1..], i - 1);
    }
  }

  /** Each entry adds at most one name. */
  lemma {:induction false} StoreSize(acc: Attributes, entries: seq<Entry>)
    ensures |Store(acc, entries)| <= |acc| + |entries|
    decreases |entries|
  {
    if |entries| > 0 {
      var (k, v) := entries[0];
      var next := acc[k := v];
      StoreSize(next, entries[1..]);
      if k in acc {
        assert next.Keys == acc.Keys;
      } else {
        assert next.Keys == acc.Keys + {k};
      }
    }
  }

  /** Storing well-formed entries keeps the dictionary well formed. */
  lemma {:induction false} StoreWellFormed(acc: Attributes, entries: seq<Entry>)
    requires WellFormed(acc)
    requires forall j :: 0 <= j < |entries| ==> WellFormedEntry(entries[j].0, entries[j].1)
    ensures WellFormed(Store(acc, entries))
    decreases |entries|
  {
    if |entries| > 0 {
      StoreWellFormed(acc[entries[0].0 := entries[0].1], entries[1..]);
    }
  }

  // ---------------------------------------------------------------------
  // Lemmas about lines and entries
  // ---------------------------------------------------------------------

  /** Filtering lines distributes over concatenation of the pieces. */
  lemma {:induction false} NonBlankConcat(a: seq<string>, b: seq<string>)
    ensures NonBlank(a + b) == NonBlank(a) + NonBlank(b)
    decreases |a|
  {
    if |a| == 0 {
      assert a + b == b;
    } else {
      var head := if Strip(a[0]) == "" then [] else [Strip(a[0])];
      assert (a + b)[0] == a[0];
      assert (a + b)[1..] == a[1..] + b;
      NonBlankConcat(a[1..], b);
      assert NonBlank(a + b) == head + (NonBlank(a[1..]) + NonBlank(b));
      assert head + (NonBlank(a[1..]) + NonBlank(b)) == (head + NonBlank(a[1..])) + NonBlank(b);
    }
  }

  /** Entries of consecutive runs of lines are the entries of each run. */
  lemma {:induction false} EntriesConcat(a: seq<string>, b: seq<string>)
    ensures Entries(a + b) == Entries(a) + Entries(b)
    decreases |a|
  {
    if |a| == 0 {
      assert a + b == b;
    } else {
      assert (a + b)[0] == a[0];
      assert (a + b)[1..] == a[1..] + b;
      EntriesConcat(a[1..], b);
    }
  }

  /** A single line contributes its own entry, if it has one. */
  lemma EntriesSingle(line: string)
    ensures Entries([line]) == match ParseLine(line) case Some(e) => [e] case None => []
  {
  }

  /** An entry is present exactly when some line parses to it. */
  lemma {:induction false} EntriesFromLines(lines: seq<string>, e: Entry)
    ensures e in Entries(lines) <==> exists i :: 0 <= i < |lines| && ParseLine(lines[i]) == Some(e)
    decreases |lines|
  {
    if |lines| > 0 {
      var rest := lines[1..];
      EntriesFromLines(rest, e);
      if exists i :: 0 <= i < |lines| && ParseLine(lines[i]) == Some(e) {
        var i :| 0 <= i < |lines| && ParseLine(lines[i]) == Some(e);
        if i > 0 {
          assert ParseLine(rest[i - 1]) == Some(e);
        }
      }
      if exists i :: 0 <= i < |rest| && ParseLine(rest[i]) == Some(e) {
        var i :| 0 <= i < |rest| && ParseLine(rest[i]) == Some(e);
        assert ParseLine(lines[i + 1]) == Some(e);
      }
    }
  }

  /** There is one entry per line that holds a colon. */
  lemma {:induction false} EntriesCount(lines: seq<string>)
    ensures |Entries(lines)| == ColonCount(lines)
    decreases |lines|
  {
    if |lines| > 0 {
      EntriesCount(lines[1..]);
    }
  }

  /** A line's entry has a colon-free name and stripped name and value. */
  lemma ParseLineWellFormed(line: string)
    requires ParseLine(line).Some?
    ensures WellFormedEntry(ParseLine(line).value.0, ParseLine(line).value.1)
  {
  }

  lemma {:induction false} EntriesWellFormed(lines: seq<string>)
    ensures forall j :: 0 <= j < |Entries(lines)| ==> WellFormedEntry(Entries(lines)[j].0, Entries(lines)[j].1)
    decreases |lines|
  {
    if |lines| > 0 {
      EntriesWellFormed(lines[1..]);
      if ParseLine(lines[0]).Some? {
        ParseLineWellFormed(lines[0]);
      }
    }
  }

  // ---------------------------------------------------------------------
  // Properties of parse_response
  // ---------------------------------------------------------------------

  /** Every name in the result is the stripped text before the first colon of
      some non-blank line, and every such text is a name in the result. */
  lemma ParseKeys(text: string, k: string)
    ensures k in Parse(text) <==> exists i :: 0 <= i < |Lines(text)| && KeyOf(Lines(text)[i]) == Some(k)
  {
    if k in Parse(text) {
      ParseKeyHasLine(text, k);
    }
    if exists i :: 0 <= i < |Lines(text)| && KeyOf(Lines(text)[i]) == Some(k) {
      var i :| 0 <= i < |Lines(text)| && KeyOf(Lines(text)[i]) == Some(k);
      ParseLineHasKey(text, i);
    }
  }

  lemma ParseKeyHasLine(text: string, k: string)
    requires k in Parse(text)
    ensures exists i :: 0 <= i < |Lines(text)| && KeyOf(Lines(text)[i]) == Some(k)
  {
    var lines := Lines(text);
    var es := Entries(lines);
    StoreKeys(map[], es, k);
    var j :| 0 <= j < |es| && es[j].0 == k;
    EntriesFromLines(lines, es[j]);
    var i :| 0 <= i < |lines| && ParseLine(lines[i]) == Some(es[j]);
    assert KeyOf(lines[i]) == Some(k);
  }

  lemma ParseLineHasKey(text: string, i: nat)
    requires i < |Lines(text)| && KeyOf(Lines(text)[i]).Some?
    ensures KeyOf(Lines(text)[i]).value in Parse(text)
  {
    var lines := Lines(text);
    var es := Entries(lines);
    var e := ParseLine(lines[i]).value;
    EntriesFromLines(lines, e);
    var j :| 0 <= j < |es| && es[j] == e;
    StoreKeys(map[], es, e.0);
  }

  /** Names hold no colon; names and values are stripped. */
  lemma ParseWellFormed(text: string)
    ensures WellFormed(Parse(text))
  {
    EntriesWellFormed(Lines(text));
    StoreWellFormed(map[], Entries(Lines(text)));
  }

  /** Last write wins: the value stored for a name is the one on the last
      line that defines it. */
  lemma ParseLastWins(text: string, i: nat)
    requires i < |Entries(Lines(text))|
    requires forall j :: i < j < |Entries(Lines(text))| ==> Entries(Lines(text))[j].0 != Entries(Lines(text))[i].0
    ensures var (k, v) := Entries(Lines(text))[i];
            k in Parse(text) && Parse(text)[k] == v
  {
    StoreLastWins(map[], Entries(Lines(text)), i);
  }

  /** There are at most as many entries as non-blank lines holding a colon. */
  lemma ParseSize(text: string)
    ensures |Parse(text)| <= ColonCount(Lines(text))
  {
    StoreSize(map[], Entries(Lines(text)));
    EntriesCount(Lines(text));
  }

  /** Parsing two replies joined by a newline gives the first reply's entries
      overridden by the second's. */
  lemma ParseConcat(a: string, b: string)
    ensures Parse(a + "\n" + b) == Parse(a) + Parse(b)
  {
    SplitConcat(a, b, '\n');
    assert a + "\n" + b == a + ['\n'] + b;
    NonBlankConcat(Split(a, '\n'), Split(b, '\n'));
    EntriesConcat(Lines(a), Lines(b));
    StoreConcat(map[], Entries(Lines(a)), Entries(Lines(b)));
    StoreOverrides(Parse(a), Entries(Lines(b)));
  }

  /** A reply of one line parses to that line's entry, if it has one. */
  lemma ParseSingleLine(line: string)
    requires '\n' !in line
    ensures Parse(line) == match ParseLine(Strip(line)) case Some((k, v)) => map[k := v] case None => map[]
  {
    SplitNoSeparator(line, '\n');
    var l := Strip(line);
    if l != "" {
      assert Lines(line) == [l];
      EntriesSingle(l);
      match ParseLine(l)
      case Some(e) =>
        assert Store(map[], [e]) == Store(map[e.0 := e.1], []);
      case None =>
    } else {
      assert Lines(line) == [];
    }
  }

  /** An empty reply yields the empty map. */
  lemma ParseEmpty()
    ensures Parse("") == map[]
  {
  }

  /** A blank line, a whitespace-only line or a line without a colon adds no
      entry wherever it appears. */
  lemma ParseIgnoresLine(a: string, junk: string, b: string)
    requires '\n' !in junk && ':' !in junk
    ensures Parse(a + "\n" + junk + "\n" + b) == Parse(a + "\n" + b)
  {
    var front := a + "\n" + junk;
    assert Parse(front) == Parse(a) by {
      ParseConcat(a, junk);
      ParseNoColon(junk);
      assert Parse(a) + map[] == Parse(a);
    }
    ParseConcat(front, b);
    ParseConcat(a, b);
  }

  /** A single line without a colon yields nothing. */
  lemma ParseNoColon(line: string)
    requires '\n' !in line && ':' !in line
    ensures Parse(line) == map[]
  {
    ParseSingleLine(line);
    TrimSubset(line, Whitespace, ':');
  }

  /** Only the first colon splits a line: a name without a colon, a colon and
      any value (colons included) give that name and that value, stripped. */
  lemma ParseLineFirstColon(name: string, value: string)
    requires ':' !in name
    ensures ParseLine(name + ":" + value) == Some((Strip(name), Strip(value)))
  {
    assert name + ":" + value == name + [':'] + value;
    SplitOnceUnique(name, value, ':');
  }

  /** A whitespace character at the front contributes no line. */
  lemma LinesDropFirst(c: char, s: string)
    requires IsWhitespace(c)
    ensures Lines([c] + s) == Lines(s)
  {
  }

  /** Leading whitespace, newlines included, contributes no line. */
  lemma {:induction false} LinesDropLeading(w: string, t: string)
    requires All(w, Whitespace)
    ensures Lines(w + t) == Lines(t)
    decreases |w|
  {
    if |w| > 0 {
      assert Drops(Whitespace, w[0]);
      assert All(w[1..], Whitespace);
      var s := w[1..] + t;
      assert w + t == [w[0]] + s;
      LinesDropLeading(w[1..], t);
      LinesDropFirst(w[0], s);
      assert Lines(w + t) == Lines([w[0]] + s);
    } else {
      assert w + t == t;
    }
  }

  /** A newline at the end contributes only a blank line. */
  lemma LinesDropNewline(s: string)
    ensures Lines(s + "\n") == Lines(s)
  {
    var r := Split(s, '\n');
    SplitConcat(s, "", '\n');
    assert s + "\n" + "" == s + "\n";
    NonBlankConcat(r, [""]);
    assert Strip("") == "";
    assert NonBlank([""]) == [];
    assert r + [] == r;
  }

  /** Whitespace other than a newline at the end only lengthens the last
      line, which stripping undoes. */
  lemma LinesDropSpace(s: string, c: char)
    requires IsWhitespace(c) && c != '\n'
    ensures Lines(s + [c]) == Lines(s)
  {
    var r := Split(s, '\n');
    var n := |r|;
    SplitSnoc(s, c, '\n');
    var last := r[n - 1] + [c];
    assert Strip(last) == Strip(r[n - 1]) by {
      TrimPadding([], r[n - 1], [c], Whitespace);
      assert [] + r[n - 1] + [c] == last;
      TrimPadding([], r[n - 1], [], Whitespace);
      assert [] + r[n - 1] + [] == r[n - 1];
    }
    NonBlankConcat(r[..n - 1], [last]);
    NonBlankConcat(r[..n - 1], [r[n - 1]]);
    assert r[..n - 1] + [r[n - 1]] == r;
  }

  /** A whitespace character at the end contributes no line. */
  lemma LinesDropLast(s: string, c: char)
    requires IsWhitespace(c)
    ensures Lines(s + [c]) == Lines(s)
  {
    if c == '\n' {
      LinesDropNewline(s);
    } else {
      LinesDropSpace(s, c);
    }
  }

  /** Trailing whitespace, newlines included, contributes no line. */
  lemma {:induction false} LinesDropTrailing(t: string, w: string)
    requires All(w, Whitespace)
    ensures Lines(t + w) == Lines(t)
    decreases |w|
  {
    if |w| > 0 {
      var c := w[|w| - 1];
      var w' := w[..|w| - 1];
      assert Drops(Whitespace, c);
      assert All(w', Whitespace);
      var s := t + w';
      assert t + w == s + [c];
      LinesDropTrailing(t, w');
      LinesDropLast(s, c);
      assert Lines(t + w) == Lines(s + [c]);
    } else {
      assert t + w == t;
    }
  }

  /** Stripping the whole reply first, as the caller does, changes nothing. */
  lemma ParseStripInvariant(text: string)
    ensures Parse(Strip(text)) == Parse(text)
  {
    var m := Strip(text);
    var i, j := TrimIsSlice(text, Whitespace);
    assert text == text[..i] + (m + text[j..]);
    LinesDropLeading(text[..i], m + text[j..]);
    LinesDropTrailing(m, text[j..]);
  }
}
