/** The few operations on Python `str` values that the response parser uses:
    `isspace`, `strip()` and `strip(chars)`, `split(sep)`
    and `split(sep, 1)`, plus the whitespace `int()` skips. Strings are
    sequences of Unicode scalar values, so lone surrogates, which a Python
    `str` can hold, do not occur. */
module PyStr {

  /** Python's `str.isspace` for a single code point: the ASCII controls
      TAB..CR, the separators FS..US, SPACE, NEL, NBSP and the Unicode space
      separators. */
  predicate IsWhitespace(c: char) {
    var n := c as int;
    || 0x09 <= n <= 0x0D
    || 0x1C <= n <= 0x20
    || n == 0x85
    || n == 0xA0
    || n == 0x1680
    || 0x2000 <= n <= 0x200A
    || n == 0x2028
    || n == 0x2029
    || n == 0x202F
    || n == 0x205F
    || n == 0x3000
  }

  /** The whitespace `int()` skips around a numeral. Below U+0080 CPython
      skips only TAB..CR and SPACE; the separators FS..US count as
      whitespace for `isspace` and `strip()` but not for `int()`. Every
      non-ASCII `isspace` character is skipped. */
  predicate IsIntSpace(c: char) {
    IsWhitespace(c) && !(0x1C <= c as int <= 0x1F)
  }

  /** The characters a strip removes: `str.strip()` with `chars` omitted,
      the given set of `strip(chars)`, or the whitespace `int()` skips. */
  datatype StripSet = Whitespace | Chars(cs: set<char>) | IntSpace

  /** Whether the strip removes `c`. */
  predicate Drops(chars: StripSet, c: char) {
    match chars
    case Whitespace => IsWhitespace(c)
    case Chars(cs) => c in cs
    case IntSpace => IsIntSpace(c)
  }

  /** Every character of `s` is one that `strip(chars)` removes. */
  predicate All(s: string, chars: StripSet) {
    forall i :: 0 <= i < |s| ==> Drops(chars, s[i])
  }

  /** Neither end of `s` is a character that `strip(chars)` removes. */
  predicate Trimmed(s: string, chars: StripSet) {
    s == [] || (!Drops(chars, s[0]) && !Drops(chars, s[|s| - 1]))
  }

  /** `lstrip`: the longest suffix of `s` that does not start with a dropped character. */
  function TrimLeft(s: string, chars: StripSet): (r: string)
    ensures |r| <= |s|
    ensures r == [] || !Drops(chars, r[0])
    decreases |s|
  {
    if |s| > 0 && Drops(chars, s[0]) then TrimLeft(s[1..], chars) else s
  }

  /** `rstrip`: the longest prefix of `s` that does not end with a dropped character. */
  function TrimRight(s: string, chars: StripSet): (r: string)
    ensures |r| <= |s|
    ensures r == [] || !Drops(chars, r[|r| - 1])
    decreases |s|
  {
    if |s| > 0 && Drops(chars, s[|s| - 1]) then TrimRight(s[..|s| - 1], chars) else s
  }

  /** `lstrip` removes a prefix made only of dropped characters. */
  lemma {:induction false} TrimLeftIsSuffix(s: string, chars: StripSet)
    ensures var r := TrimLeft(s, chars);
            r == s[|s| - |r|..] && All(s[..|s| - |r|], chars)
    decreases |s|
  {
    if |s| > 0 && Drops(chars, s[0]) {
      TrimLeftIsSuffix(s[1..], chars);
      var r := TrimLeft(s, chars);
      assert s[1..][|s| - 1 - |r|..] == s[|s| - |r|..];
      assert s[..|s| - |r|] == [s[0]] + s[1..][..|s| - 1 - |r|];
    }
  }

  /** `rstrip` removes a suffix made only of dropped characters. */
  lemma {:induction false} TrimRightIsPrefix(s: string, chars: StripSet)
    ensures var r := TrimRight(s, chars);
            r == s[..|r|] && All(s[|r|..], chars)
    decreases |s|
  {
    if |s| > 0 && Drops(chars, s[|s| - 1]) {
      var s' := s[..|s| - 1];
      TrimRightIsPrefix(s', chars);
      var r := TrimRight(s, chars);
      assert s'[..|r|] == s[..|r|];
      assert forall i :: 0 <= i < |s| - 1 - |r| ==> s[|r|..][i] == s'[|r|..][i];
    }
  }

  /** `strip(chars)`: `s` with every leading and trailing dropped character
      removed; what is left starts and ends with a kept character. */
  function Trim(s: string, chars: StripSet): (r: string)
    ensures |r| <= |s|
    ensures Trimmed(r, chars)
  {
    var left := TrimLeft(s, chars);
    TrimRightIsPrefix(left, chars);
    TrimRight(left, chars)
  }

  /** The stripped text is a slice of the original, and everything cut off on
      either side is dropped characters. */
  lemma TrimIsSlice(s: string, chars: StripSet) returns (i: nat, j: nat)
    ensures i <= j <= |s| && Trim(s, chars) == s[i..j]
    ensures All(s[..i], chars) && All(s[j..], chars)
  {
    var left := TrimLeft(s, chars);
    var r := TrimRight(left, chars);
    TrimLeftIsSuffix(s, chars);
    TrimRightIsPrefix(left, chars);
    i := |s| - |left|;
    j := i + |r|;
    assert r == s[i..j];
    assert s[j..] == left[|r|..];
  }

  /** Stripping keeps only characters of the original. */
  lemma TrimSubset(s: string, chars: StripSet, c: char)
    requires c !in s
    ensures c !in Trim(s, chars)
  {
    var i, j := TrimIsSlice(s, chars);
    assert forall k :: 0 <= k < j - i ==> s[i..j][k] == s[i + k];
  }

  /** `lstrip` never removes a kept character. */
  lemma {:induction false} TrimLeftKeeps(s: string, chars: StripSet, k: nat)
    requires k < |s| && !Drops(chars, s[k])
    ensures s[k] in TrimLeft(s, chars)
    decreases |s|
  {
    if Drops(chars, s[0]) {
      assert s[1..][k - 1] == s[k];
      TrimLeftKeeps(s[1..], chars, k - 1);
    }
  }

  /** `rstrip` never removes a kept character. */
  lemma {:induction false} TrimRightKeeps(s: string, chars: StripSet, k: nat)
    requires k < |s| && !Drops(chars, s[k])
    ensures s[k] in TrimRight(s, chars)
    decreases |s|
  {
    if Drops(chars, s[|s| - 1]) {
      assert s[..|s| - 1][k] == s[k];
      TrimRightKeeps(s[..|s| - 1], chars, k);
    }
  }

  /** `strip` removes only dropped characters: every kept character of the
      text is still there afterwards. */
  lemma TrimKeeps(s: string, chars: StripSet, k: nat)
    requires k < |s| && !Drops(chars, s[k])
    ensures s[k] in Trim(s, chars)
  {
    var left := TrimLeft(s, chars);
    TrimLeftKeeps(s, chars, k);
    var j :| 0 <= j < |left| && left[j] == s[k];
    TrimRightKeeps(left, chars, j);
  }

  /** `s.strip()` with no argument. */
  function Strip(s: string): string {
    Trim(s, Whitespace)
  }

  /** Prepending a dropped character does not change the left-trimmed text. */
  lemma {:induction false} TrimLeftPrepend(w: string, s: string, chars: StripSet)
    requires All(w, chars)
    ensures TrimLeft(w + s, chars) == TrimLeft(s, chars)
    decreases |w|
  {
    if |w| == 0 {
      assert w + s == s;
    } else {
      assert (w + s)[0] == w[0];
      assert (w + s)[1..] == w[1..] + s;
      TrimLeftPrepend(w[1..], s, chars);
    }
  }

  /** Appending dropped characters does not change the right-trimmed text. */
  lemma {:induction false} TrimRightAppend(s: string, w: string, chars: StripSet)
    requires All(w, chars)
    ensures TrimRight(s + w, chars) == TrimRight(s, chars)
    decreases |w|
  {
    if |w| == 0 {
      assert s + w == s;
    } else {
      assert (s + w)[|s + w| - 1] == w[|w| - 1];
      assert (s + w)[..|s + w| - 1] == s + w[..|w| - 1];
      TrimRightAppend(s, w[..|w| - 1], chars);
    }
  }

  /** Left-trimming `s + w`: either `s` was all dropped characters and the
      trim continues into `w`, or the trim stops inside `s` and `w` is kept. */
  lemma {:induction false} TrimLeftAppend(s: string, w: string, chars: StripSet)
    ensures TrimLeft(s + w, chars) == if TrimLeft(s, chars) == [] then TrimLeft(w, chars) else TrimLeft(s, chars) + w
    decreases |s|
  {
    if |s| == 0 {
      assert s + w == w;
    } else if Drops(chars, s[0]) {
      assert (s + w)[1..] == s[1..] + w;
      TrimLeftAppend(s[1..], w, chars);
    }
  }

  /** Stripping ignores any run of dropped characters added on either side. */
  lemma {:induction false} TrimPadding(w1: string, s: string, w2: string, chars: StripSet)
    requires All(w1, chars) && All(w2, chars)
    ensures Trim(w1 + s + w2, chars) == Trim(s, chars)
  {
    TrimLeftPrepend(w1, s + w2, chars);
    assert w1 + s + w2 == w1 + (s + w2);
    TrimLeftAppend(s, w2, chars);
    var left := TrimLeft(s, chars);
    if left == [] {
      assert All(s, chars) by {
        TrimLeftIsSuffix(s, chars);
        assert s[..|s|] == s;
      }
      assert TrimLeft(w2, chars) == [] by {
        TrimLeftPrepend(w2, [], chars);
        assert w2 + [] == w2;
      }
    } else {
      TrimRightAppend(left, w2, chars);
    }
  }

  /** A string is a fixed point of `Trim` exactly when its ends are kept
      characters, so trimming is idempotent. */
  lemma TrimFixedPoint(s: string, chars: StripSet)
    ensures Trim(s, chars) == s <==> Trimmed(s, chars)
    ensures Trim(Trim(s, chars), chars) == Trim(s, chars)
  {
  }

  /** Text whose ends are kept characters is left alone by `strip`. */
  lemma TrimmedUnchanged(s: string, chars: StripSet)
    requires Trimmed(s, chars)
    ensures Trim(s, chars) == s
  {
    TrimFixedPoint(s, chars);
  }

  /** `s.split(sep)`: the maximal pieces of `s` between occurrences of `sep`.
      There is always at least one piece and no piece contains `sep`. */
  function Split(s: string, sep: char): (r: seq<string>)
    ensures |r| >= 1
    ensures forall i :: 0 <= i < |r| ==> sep !in r[i]
    decreases |s|
  {
    if |s| == 0 then [""]
    else if s[0] == sep then [""] + Split(s[1..], sep)
    else
      var rest := Split(s[1..], sep);
      [[s[0]] + rest[0]] + rest[1..]
  }

  /** `sep.join(parts)`. */
  function Join(parts: seq<string>, sep: char): string
    decreases |parts|
  {
    if |parts| == 0 then ""
    else if |parts| == 1 then parts[0]
    else parts[0] + [sep] + Join(parts[1..], sep)
  }

  /** Joining the pieces of a split gives back the original text. */
  lemma {:induction false} JoinSplit(s: string, sep: char)
    ensures Join(Split(s, sep), sep) == s
    decreases |s|
  {
    if |s| > 0 {
      JoinSplit(s[1..], sep);
      var rest := Split(s[1..], sep);
      if s[0] == sep {
        assert Split(s, sep)[1..] == rest;
      } else {
        var r := Split(s, sep);
        if |rest| == 1 {
          assert r == [[s[0]] + rest[0]];
        } else {
          assert r[1..] == rest[1..];
          assert Join(rest, sep) == rest[0] + [sep] + Join(rest[1..], sep);
        }
      }
    }
  }

  /** Splitting a join of separator-free pieces gives back the pieces. */
  lemma {:induction false} SplitJoin(parts: seq<string>, sep: char)
    requires |parts| >= 1
    requires forall i :: 0 <= i < |parts| ==> sep !in parts[i]
    ensures Split(Join(parts, sep), sep) == parts
    decreases |parts|, |parts[0]|
  {
    var p := parts[0];
    if |p| == 0 {
      if |parts| > 1 {
        var s := Join(parts, sep);
        assert s == [sep] + Join(parts[1..], sep);
        assert s[1..] == Join(parts[1..], sep);
        SplitJoin(parts[1..], sep);
        assert parts == [""] + parts[1..];
      }
    } else {
      var parts' := [p[1..]] + parts[1..];
      assert parts'[1..] == parts[1..];
      var s := Join(parts, sep);
      assert s == [p[0]] + Join(parts', sep) by {
        if |parts| == 1 {
          assert p == [p[0]] + p[1..];
        } else {
          assert p + [sep] + Join(parts[1..], sep) == [p[0]] + (p[1..] + [sep] + Join(parts[1..], sep));
        }
      }
      assert s[1..] == Join(parts', sep);
      assert sep !in parts'[0] by {
        assert forall c :: c in p[1..] ==> c in p;
      }
      SplitJoin(parts', sep);
      assert p[0] != sep;
      assert [p[0]] + p[1..] == p;
    }
  }

  /** Splitting is compositional: text joined by one separator splits into the
      pieces of each side. */
  lemma {:induction false} SplitConcat(a: string, b: string, sep: char)
    ensures Split(a + [sep] + b, sep) == Split(a, sep) + Split(b, sep)
    decreases |a|
  {
    var s := a + [sep] + b;
    if |a| == 0 {
      assert s[1..] == b;
    } else {
      assert s[1..] == a[1..] + [sep] + b;
      SplitConcat(a[1..], b, sep);
    }
  }

  /** Appending a non-separator character extends the last piece of a split. */
  lemma {:induction false} SplitSnoc(s: string, c: char, sep: char)
    requires c != sep
    ensures var r := Split(s, sep);
            Split(s + [c], sep) == r[..|r| - 1] + [r[|r| - 1] + [c]]
    decreases |s|
  {
    var t := s + [c];
    if |s| == 0 {
      assert t == [c] && t[1..] == [];
      var rest := Split(t[1..], sep);
      assert rest == [""];
      assert [c] + rest[0] == [c] && rest[1..] == [];
      assert Split(t, sep) == [[c]];
      var r := Split(s, sep);
      assert r == [""];
      assert r[..|r| - 1] + [r[|r| - 1] + [c]] == [[c]];
    } else {
      assert t[0] == s[0];
      assert t[1..] == s[1..] + [c];
      SplitSnoc(s[1..], c, sep);
      var r' := Split(s[1..], sep);
      var n := |r'|;
      if s[0] == sep {
        assert Split(s, sep) == [""] + r';
      } else {
        var rest := Split(t[1..], sep);
        assert rest == r'[..n - 1] + [r'[n - 1] + [c]];
        if n == 1 {
          assert rest == [r'[0] + [c]];
          assert Split(s, sep) == [[s[0]] + r'[0]];
          assert [s[0]] + (r'[0] + [c]) == ([s[0]] + r'[0]) + [c];
        } else {
          assert rest[0] == r'[0];
          assert rest[1..] == r'[1..n - 1] + [r'[n - 1] + [c]];
        }
      }
    }
  }

  /** A text without the separator is a single piece. */
  lemma {:induction false} SplitNoSeparator(s: string, sep: char)
    requires sep !in s
    ensures Split(s, sep) == [s]
    decreases |s|
  {
    if |s| > 0 {
      assert sep !in s[1..] by {
        assert forall c :: c in s[1..] ==> c in s;
      }
      SplitNoSeparator(s[1..], sep);
      assert [s[0]] + s[1..] == s;
    }
  }

  /** `s.split(sep, 1)` on a string known to contain `sep`: the text before
      the FIRST `sep` and everything after it, later separators included. */
  function SplitOnce(s: string, sep: char): (r: (string, string))
    requires sep in s
    ensures s == r.0 + [sep] + r.1
    ensures sep !in r.0
    decreases |s|
  {
    if s[0] == sep then ([], s[1..])
    else
      var (before, after) := SplitOnce(s[1..], sep);
      ([s[0]] + before, after)
  }

  /** The first-separator split is unique: any decomposition around a
      separator with a separator-free left side is the one `SplitOnce` finds. */
  lemma {:induction false} SplitOnceUnique(before: string, after: string, sep: char)
    requires sep !in before
    ensures SplitOnce(before + [sep] + after, sep) == (before, after)
    decreases |before|
  {
    var s := before + [sep] + after;
    if |before| == 0 {
      assert s[1..] == after;
    } else {
      assert s[1..] == before[1..] + [sep] + after;
      assert sep !in before[1..] by {
        assert forall c :: c in before[1..] ==> c in before;
      }
      SplitOnceUnique(before[1..], after, sep);
      assert [before[0]] + before[1..] == before;
    }
  }
}
