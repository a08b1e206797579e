/**
  The few pieces of java.lang.String and java.lang.Integer that the indexer and
  the searcher lean on, stated over `string` (a sequence of chars):
  `startsWith`, `trim`, `split` with a one-character separator, `split("\\s+")`,
  `replace`, `String.valueOf(int)` and `Integer.parseInt`.
*/
module JavaText {
  import opened Wrappers

  predicate StartsWith(s: string, prefix: string)
  {
    |prefix| <= |s| && s[..|prefix|] == prefix
  }

  // ---------------------------------------------------------------------------
  // String.trim(): strips every character whose code is at most U+0020
  // ---------------------------------------------------------------------------

  /** A character that `String.trim()` removes from the ends. */
  predicate Blank(c: char)
  {
    c <= ' '
  }

  /** String.trim(): blanks are cut off the front, then off the back. */
  function Trim(s: string): string
  {
    if s != [] && Blank(s[0]) then Trim(s[1..])
    else if s != [] && Blank(s[|s| - 1]) then Trim(s[..|s| - 1])
    else s
  }

  /** `r` is what is left of `s` once a blank prefix of length `i` and a blank suffix are cut off. */
  predicate TrimmedFrom(s: string, r: string, i: int)
  {
    && 0 <= i <= |s| - |r|
    && s[i..i + |r|] == r
    && (forall k :: 0 <= k < i ==> Blank(s[k]))
    && (forall k :: i + |r| <= k < |s| ==> Blank(s[k]))
  }

  /** A blank in front of a trimmed text moves the text one place on. */
  lemma TrimmedFromFront(s: string, r: string, i: int)
    requires s != [] && Blank(s[0]) && TrimmedFrom(s[1..], r, i)
    ensures TrimmedFrom(s, r, i + 1)
  {
    assert s[i + 1..i + 1 + |r|] == s[1..][i..i + |r|];
    forall k | 0 <= k < i + 1
      ensures Blank(s[k])
    {
      if k > 0 {
        assert s[k] == s[1..][k - 1];
      }
    }
    forall k | i + 1 + |r| <= k < |s|
      ensures Blank(s[k])
    {
      assert s[k] == s[1..][k - 1];
    }
  }

  /** A blank behind a trimmed text leaves it where it is. */
  lemma TrimmedFromBack(s: string, r: string, i: int)
    requires s != [] && Blank(s[|s| - 1]) && TrimmedFrom(s[..|s| - 1], r, i)
    ensures TrimmedFrom(s, r, i)
  {
    assert s[i..i + |r|] == s[..|s| - 1][i..i + |r|];
    forall k | 0 <= k < i
      ensures Blank(s[k])
    {
      assert s[k] == s[..|s| - 1][k];
    }
    forall k | i + |r| <= k < |s|
      ensures Blank(s[k])
    {
      if k < |s| - 1 {
        assert s[k] == s[..|s| - 1][k];
      }
    }
  }

  /**
    Trim keeps an infix of `s` that neither starts nor ends with a blank, cuts
    off only blanks on either side, and so leaves nothing exactly when every
    character of `s` is blank.
  */
  lemma {:induction false} TrimSpec(s: string)
    ensures Trim(s) == [] || (!Blank(Trim(s)[0]) && !Blank(Trim(s)[|Trim(s)| - 1]))
    ensures exists i :: TrimmedFrom(s, Trim(s), i)
    ensures Trim(s) == [] <==> forall k :: 0 <= k < |s| ==> Blank(s[k])
    decreases |s|
  {
    var r := Trim(s);
    if s != [] && Blank(s[0]) {
      TrimSpec(s[1..]);
      var i :| TrimmedFrom(s[1..], r, i);
      TrimmedFromFront(s, r, i);
    } else if s != [] && Blank(s[|s| - 1]) {
      TrimSpec(s[..|s| - 1]);
      var i :| TrimmedFrom(s[..|s| - 1], r, i);
      TrimmedFromBack(s, r, i);
    } else {
      assert TrimmedFrom(s, r, 0);
    }
  }

  /** A string that does not start or end with a blank is its own trim. */
  lemma TrimOfTrimmed(s: string)
    requires s == [] || (!Blank(s[0]) && !Blank(s[|s| - 1]))
    ensures Trim(s) == s
  {
  }

  // ---------------------------------------------------------------------------
  // String.split(regex) with limit 0, for a one-character separator
  // ---------------------------------------------------------------------------

  /** `parts` joined back together with `sep` between consecutive parts. */
  function JoinWith(parts: seq<string>, sep: char): string
  {
    if |parts| <= 1 then (if parts == [] then "" else parts[0])
    else parts[0] + [sep] + JoinWith(parts[1..], sep)
  }

  /** The text between consecutive separators, empty pieces included. */
  function Pieces(s: string, sep: char): (r: seq<string>)
    ensures |r| >= 1
    decreases |s|
  {
    if s == [] then [""]
    else if s[0] == sep then [""] + Pieces(s[1..], sep)
    else
      var p := Pieces(s[1..], sep);
      [[s[0]] + p[0]] + p[1..]
  }

  /** No piece holds the separator. */
  lemma {:induction false} PiecesSpec(s: string, sep: char)
    ensures forall k :: 0 <= k < |Pieces(s, sep)| ==> sep !in Pieces(s, sep)[k]
    decreases |s|
  {
    if s != [] {
      PiecesSpec(s[1..], sep);
    }
  }

  /** Cutting at the separators and joining again at them gives the string back. */
  lemma {:induction false} JoinPieces(s: string, sep: char)
    ensures JoinWith(Pieces(s, sep), sep) == s
    decreases |s|
  {
    if s == [] {
    } else if s[0] == sep {
      JoinPieces(s[1..], sep);
      var p := Pieces(s[1..], sep);
      assert Pieces(s, sep) == [""] + p;
      assert ([""] + p)[1..] == p;
    } else {
      JoinPieces(s[1..], sep);
      var p := Pieces(s[1..], sep);
      var q := [[s[0]] + p[0]] + p[1..];
      assert Pieces(s, sep) == q;
      if |p| == 1 {
        assert JoinWith(q, sep) == [s[0]] + p[0];
      } else {
        assert q[1..] == p[1..];
        assert JoinWith(p, sep) == p[0] + [sep] + JoinWith(p[1..], sep);
        assert JoinWith(q, sep) == [s[0]] + p[0] + [sep] + JoinWith(p[1..], sep);
      }
    }
  }

  /** The pieces with every trailing empty piece removed (split's limit 0). */
  function DropTrailingEmpty(ps: seq<string>): seq<string>
  {
    if ps != [] && ps[|ps| - 1] == "" then DropTrailingEmpty(ps[..|ps| - 1]) else ps
  }

  /** What is kept is a prefix that does not end in an empty piece, and everything dropped is empty. */
  lemma {:induction false} DropTrailingEmptySpec(ps: seq<string>)
    ensures DropTrailingEmpty(ps) <= ps
    ensures DropTrailingEmpty(ps) == [] || DropTrailingEmpty(ps)[|DropTrailingEmpty(ps)| - 1] != ""
    ensures forall k :: |DropTrailingEmpty(ps)| <= k < |ps| ==> ps[k] == ""
  {
    if ps != [] && ps[|ps| - 1] == "" {
      DropTrailingEmptySpec(ps[..|ps| - 1]);
    }
  }

  /**
    `s.split(String.valueOf(sep))`: when `sep` does not occur the whole string
    is the single result (even when empty); otherwise the pieces between the
    separators, with the trailing empty ones dropped.
  */
  function Split(s: string, sep: char): seq<string>
  {
    if sep !in s then [s] else DropTrailingEmpty(Pieces(s, sep))
  }

  /**
    No field holds the separator; without a separator the string is its own
    single field; otherwise the fields are the pieces up to the trailing empty ones.
  */
  lemma SplitSpec(s: string, sep: char)
    ensures forall k :: 0 <= k < |Split(s, sep)| ==> sep !in Split(s, sep)[k]
    ensures sep !in s ==> Split(s, sep) == [s]
    ensures sep in s ==> && Split(s, sep) <= Pieces(s, sep)
                         && forall k :: |Split(s, sep)| <= k < |Pieces(s, sep)| ==> Pieces(s, sep)[k] == ""
  {
    if sep in s {
      PiecesSpec(s, sep);
      DropTrailingEmptySpec(Pieces(s, sep));
    }
  }

  /** Pieces of a string built by joining separator-free words are those words. */
  lemma {:induction false} PiecesOfJoin(words: seq<string>, sep: char)
    requires |words| >= 1
    requires forall k :: 0 <= k < |words| ==> sep !in words[k]
    ensures Pieces(JoinWith(words, sep), sep) == words
    decreases |words|
  {
    if |words| == 1 {
      PiecesOfWord(words[0], [], sep);
      assert words[0] + [] == words[0];
      assert words[0] + "" == words[0];
      assert words == [words[0]];
    } else {
      PiecesOfJoin(words[1..], sep);
      PiecesOfWord(words[0], [sep] + JoinWith(words[1..], sep), sep);
      assert JoinWith(words, sep) == words[0] + ([sep] + JoinWith(words[1..], sep));
      var after := [""] + words[1..];
      assert Pieces([sep] + JoinWith(words[1..], sep), sep) == after by {
        assert ([sep] + JoinWith(words[1..], sep))[1..] == JoinWith(words[1..], sep);
      }
      assert after[0] == "" && after[1..] == words[1..];
      assert words[0] + "" == words[0];
      assert words == [words[0]] + words[1..];
    }
  }

  /** A separator-free word in front glues onto the first piece of what follows. */
  lemma {:induction false} PiecesOfWord(w: string, rest: string, sep: char)
    requires sep !in w
    ensures Pieces(w + rest, sep) == [w + Pieces(rest, sep)[0]] + Pieces(rest, sep)[1..]
    decreases |w|
  {
    var p := Pieces(rest, sep);
    if w == [] {
      assert w + rest == rest;
      assert p == [p[0]] + p[1..];
      assert w + p[0] == p[0];
    } else {
      PiecesOfWord(w[1..], rest, sep);
      var s := w + rest;
      assert s[0] == w[0] && s[0] != sep;
      assert s[1..] == w[1..] + rest;
      var q := Pieces(s[1..], sep);
      assert q == [w[1..] + p[0]] + p[1..];
      assert Pieces(s, sep) == [[s[0]] + q[0]] + q[1..];
      assert q[1..] == p[1..];
      assert [w[0]] + (w[1..] + p[0]) == w + p[0];
    }
  }

  /**
    Splitting a line written as words joined by the separator gives back the
    words, as long as no word holds the separator and the last is not empty.
  */
  lemma SplitOfJoin(words: seq<string>, sep: char)
    requires |words| >= 1 && words[|words| - 1] != ""
    requires forall k :: 0 <= k < |words| ==> sep !in words[k]
    ensures Split(JoinWith(words, sep), sep) == words
  {
    PiecesOfJoin(words, sep);
    var s := JoinWith(words, sep);
    if |words| > 1 {
      assert s == words[0] + [sep] + JoinWith(words[1..], sep);
      assert s[|words[0]|] == sep;
    }
  }

  // ---------------------------------------------------------------------------
  // String.split("\\s+"): separators are runs of the regex class \s
  // ---------------------------------------------------------------------------

  /** The characters of the regular-expression class \s: [ \t\n\x0B\f\r]. */
  predicate RegexSpace(c: char)
  {
    c == ' ' || c == '\t' || c == '\n' || c == '\U{B}' || c == '\U{C}' || c == '\r'
  }

  predicate NoSpace(s: string)
  {
    forall k :: 0 <= k < |s| ==> !RegexSpace(s[k])
  }

  /** `s` with its leading run of \s characters removed. */
  function SkipSpaces(s: string): (r: string)
    ensures |r| <= |s|
    ensures r == [] || !RegexSpace(r[0])
    decreases |s|
  {
    if s != [] && RegexSpace(s[0]) then SkipSpaces(s[1..]) else s
  }

  /** The text between maximal runs of \s, a leading and trailing empty piece included. */
  function SpacePieces(s: string): (r: seq<string>)
    ensures |r| >= 1
    ensures forall k :: 0 <= k < |r| ==> NoSpace(r[k])
    decreases |s|
  {
    if s == [] then [""]
    else if RegexSpace(s[0]) then [""] + SpacePieces(SkipSpaces(s))
    else
      var p := SpacePieces(s[1..]);
      [[s[0]] + p[0]] + p[1..]
  }

  /** `s.split("\\s+")`. */
  function SplitOnSpaces(s: string): seq<string>
  {
    if NoSpace(s) then [s] else DropTrailingEmpty(SpacePieces(s))
  }

  /**
    No field holds a \s character; a string without one is its own single
    field; otherwise the fields are the pieces up to the trailing empty ones.
  */
  lemma SplitOnSpacesSpec(s: string)
    ensures forall k :: 0 <= k < |SplitOnSpaces(s)| ==> NoSpace(SplitOnSpaces(s)[k])
    ensures NoSpace(s) ==> SplitOnSpaces(s) == [s]
    ensures !NoSpace(s) ==> && SplitOnSpaces(s) <= SpacePieces(s)
                            && forall k :: |SplitOnSpaces(s)| <= k < |SpacePieces(s)| ==> SpacePieces(s)[k] == ""
  {
    if !NoSpace(s) {
      DropTrailingEmptySpec(SpacePieces(s));
    }
  }

  /** A word without spaces in front glues onto the first piece of what follows. */
  lemma {:induction false} SpacePiecesOfWord(w: string, rest: string)
    requires NoSpace(w)
    ensures SpacePieces(w + rest) == [w + SpacePieces(rest)[0]] + SpacePieces(rest)[1..]
    decreases |w|
  {
    var p := SpacePieces(rest);
    if w == [] {
      assert w + rest == rest;
      assert p == [p[0]] + p[1..];
      assert w + p[0] == p[0];
    } else {
      SpacePiecesOfWord(w[1..], rest);
      var s := w + rest;
      assert s[0] == w[0] && !RegexSpace(s[0]);
      assert s[1..] == w[1..] + rest;
      var q := SpacePieces(s[1..]);
      assert q == [w[1..] + p[0]] + p[1..];
      assert SpacePieces(s) == [[s[0]] + q[0]] + q[1..];
      assert q[1..] == p[1..];
      assert [w[0]] + (w[1..] + p[0]) == w + p[0];
    }
  }

  /** A separator of `split("\\s+")`: a non-empty run of \s characters. */
  predicate Gap(g: string)
  {
    g != [] && forall k :: 0 <= k < |g| ==> RegexSpace(g[k])
  }

  /** Words written with the gap `gaps[k]` between words k and k + 1. */
  function JoinWithGaps(words: seq<string>, gaps: seq<string>): string
    requires |words| >= 1 && |gaps| == |words| - 1
    decreases |words|
  {
    if |words| == 1 then words[0] else words[0] + gaps[0] + JoinWithGaps(words[1..], gaps[1..])
  }

  /** A run of \s in front of text that does not start with \s is skipped whole. */
  lemma {:induction false} SkipGap(g: string, rest: string)
    requires forall k :: 0 <= k < |g| ==> RegexSpace(g[k])
    requires rest == [] || !RegexSpace(rest[0])
    ensures SkipSpaces(g + rest) == rest
    decreases |g|
  {
    if g == [] {
      assert g + rest == rest;
    } else {
      assert (g + rest)[0] == g[0];
      assert (g + rest)[1..] == g[1..] + rest;
      SkipGap(g[1..], rest);
    }
  }

  /**
    The pieces are the words between the runs of \s, in order: words
    separated by any non-empty runs of \s are split back into those words.
    Only the first and the last word may be empty (the empty piece before a
    leading run, and the one after a trailing run).
  */
  lemma {:induction false} SpacePiecesOfGaps(words: seq<string>, gaps: seq<string>)
    requires |words| >= 1 && |gaps| == |words| - 1
    requires forall k :: 0 <= k < |words| ==> NoSpace(words[k])
    requires forall k :: 1 <= k < |words| - 1 ==> words[k] != ""
    requires forall k :: 0 <= k < |gaps| ==> Gap(gaps[k])
    ensures SpacePieces(JoinWithGaps(words, gaps)) == words
    decreases |words|
  {
    if |words| == 1 {
      SpacePiecesOfWord(words[0], []);
      assert words[0] + [] == words[0];
      assert words[0] + "" == words[0];
      assert words == [words[0]];
    } else {
      SpacePiecesOfGaps(words[1..], gaps[1..]);
      var tail := JoinWithGaps(words[1..], gaps[1..]);
      var g := gaps[0];
      SpacePiecesOfWord(words[0], g + tail);
      assert JoinWithGaps(words, gaps) == words[0] + (g + tail);
      assert tail == [] || !RegexSpace(tail[0]) by {
        if |words| > 2 {
          assert words[1..][1..] == words[2..] && gaps[1..][1..] == gaps[2..];
          assert tail == words[1] + (gaps[1] + JoinWithGaps(words[2..], gaps[2..]));
          assert tail[0] == words[1][0];
        } else {
          assert tail == words[1];
        }
      }
      SkipGap(g, tail);
      assert (g + tail)[0] == g[0];
      assert SpacePieces(g + tail) == [""] + words[1..];
      assert words[0] + "" == words[0];
      assert words == [words[0]] + words[1..];
    }
  }

  /**
    A line written as non-empty \s-free fields, after an optional leading
    empty field, with any non-empty runs of \s between them, is split on \s+
    into exactly those fields.
  */
  lemma SplitOnSpacesOfGaps(words: seq<string>, gaps: seq<string>)
    requires |words| >= 1 && |gaps| == |words| - 1
    requires forall k :: 0 <= k < |words| ==> NoSpace(words[k])
    requires forall k :: 1 <= k < |words| ==> words[k] != ""
    requires forall k :: 0 <= k < |gaps| ==> Gap(gaps[k])
    ensures SplitOnSpaces(JoinWithGaps(words, gaps)) == words
  {
    SpacePiecesOfGaps(words, gaps);
    var s := JoinWithGaps(words, gaps);
    if |words| > 1 {
      assert s == words[0] + gaps[0] + JoinWithGaps(words[1..], gaps[1..]);
      assert s[|words[0]|] == gaps[0][0];
      assert words[|words| - 1] != "";
    }
  }

  // ---------------------------------------------------------------------------
  // String.replace(target, replacement) for a non-empty target
  // ---------------------------------------------------------------------------

  /**
    Every occurrence of `target` replaced, scanning left to right and resuming
    after each replaced occurrence (so occurrences never overlap).
  */
  function Replace(s: string, target: string, replacement: string): string
    requires target != []
    decreases |s|
  {
    if |s| < |target| then s
    else if s[..|target|] == target then replacement + Replace(s[|target|..], target, replacement)
    else [s[0]] + Replace(s[1..], target, replacement)
  }

  /** Text that cannot begin an occurrence of `target` passes through replace unchanged. */
  lemma {:induction false} ReplacePassesThrough(x: string, rest: string, target: string, replacement: string)
    requires target != []
    requires forall k :: 0 <= k < |x| ==> x[k] != target[0]
    ensures Replace(x + rest, target, replacement) == x + Replace(rest, target, replacement)
    decreases |x|
  {
    if x == [] {
      assert x + rest == rest;
    } else {
      var s := x + rest;
      if |s| < |target| {
        assert Replace(rest, target, replacement) == rest;
      } else {
        assert s[..|target|][0] == x[0];
        assert s[1..] == x[1..] + rest;
        ReplacePassesThrough(x[1..], rest, target, replacement);
        var r := Replace(rest, target, replacement);
        assert x == [x[0]] + x[1..];
        assert [x[0]] + (x[1..] + r) == x + r;
      }
    }
  }

  /** A string shorter than the target has nothing to replace. */
  lemma ReplaceShort(s: string, target: string, replacement: string)
    requires target != [] && |s| < |target|
    ensures Replace(s, target, replacement) == s
  {
  }

  // ---------------------------------------------------------------------------
  // String.valueOf(int) and Integer.parseInt(String), radix 10
  // ---------------------------------------------------------------------------

  const IntMin: int := -0x8000_0000
  const IntMax: int := 0x7fff_ffff

  /** The range of a Java `int`. */
  predicate IsInt32(n: int)
  {
    IntMin <= n <= IntMax
  }

  predicate IsDigit(c: char)
  {
    '0' <= c <= '9'
  }

  predicate AllDigits(s: string)
  {
    forall k :: 0 <= k < |s| ==> IsDigit(s[k])
  }

  function DigitChar(d: nat): (c: char)
    requires d < 10
    ensures IsDigit(c) && (c as int) - ('0' as int) == d
  {
    ('0' as int + d) as char
  }

  /** The value of a string of decimal digits, most significant first. */
  function DigitsValue(s: string): nat
    requires AllDigits(s)
  {
    if s == [] then 0
    else DigitsValue(s[..|s| - 1]) * 10 + ((s[|s| - 1] as int) - ('0' as int))
  }

  /** Decimal digits of a natural number, most significant first. */
  function NatDigits(n: nat): (s: string)
    ensures s != [] && IsDigit(s[0]) && IsDigit(s[|s| - 1])
  {
    if n < 10 then [DigitChar(n)] else NatDigits(n / 10) + [DigitChar(n % 10)]
  }

  /** The digits are decimal digits without a leading zero, and their value is `n`. */
  lemma {:induction false} NatDigitsSpec(n: nat)
    ensures AllDigits(NatDigits(n))
    ensures DigitsValue(NatDigits(n)) == n
    ensures |NatDigits(n)| > 1 ==> NatDigits(n)[0] != '0'
  {
    if n >= 10 {
      NatDigitsSpec(n / 10);
      var p := NatDigits(n / 10);
      var s := NatDigits(n);
      assert s[..|s| - 1] == p;
      assert s[0] == p[0];
    }
  }

  /** String.valueOf(int): a minus sign for negative numbers, then the digits. */
  function IntToString(n: int): (s: string)
    ensures s != [] && !Blank(s[0]) && !Blank(s[|s| - 1])
  {
    if n < 0 then "-" + NatDigits(-n) else NatDigits(n)
  }

  /** A written int holds no space. */
  lemma IntToStringHasNoSpace(n: int)
    ensures ' ' !in IntToString(n)
  {
    var digits := NatDigits(if n < 0 then -n else n);
    NatDigitsSpec(if n < 0 then -n else n);
    assert ' ' !in digits by {
      forall k | 0 <= k < |digits|
        ensures digits[k] != ' '
      {
        assert IsDigit(digits[k]);
      }
    }
  }

  /**
    Integer.parseInt(s): an optional sign ('-' or '+') followed by at least one
    decimal digit, whose value fits in an int; None stands for the
    NumberFormatException thrown otherwise.
  */
  function ParseInt(s: string): (r: Option<int>)
    ensures r.Some? ==> IsInt32(r.value)
    ensures r.Some? ==> s != [] && (IsDigit(s[0]) || s[0] == '-' || s[0] == '+')
  {
    if s == [] then None
    else
      var digits := if s[0] == '-' || s[0] == '+' then s[1..] else s;
      if digits == [] || !AllDigits(digits) then None
      else
        var v := if s[0] == '-' then 0 - DigitsValue(digits) as int else DigitsValue(digits) as int;
        if IsInt32(v) then Some(v) else None
  }

  /** Integer.parseInt reads back what String.valueOf wrote, for every int. */
  lemma ParseIntOfString(n: int)
    requires IsInt32(n)
    ensures ParseInt(IntToString(n)) == Some(n)
  {
    var s := IntToString(n);
    NatDigitsSpec(if n < 0 then -n else n);
    if n < 0 {
      assert s[1..] == NatDigits(-n);
    }
  }
}
