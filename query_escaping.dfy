/**
  The query-text escaping of the searcher: before a query is handed to the
  query parser, every special token of the query syntax is preceded by a
  backslash.  The searcher does this as a fixed, ordered chain of
  `String.replace` calls, one per token, backslash first.

  `Escape` is an independent single-pass definition of the intended result:
  scanning left to right, each backslash becomes two, each other special token
  (`&&` and `||` as wholes) gains one preceding backslash, and nothing else
  changes.  `EscapeStep` shows that each link of the chain, applied to text
  escaped for the tokens before it, escapes one more token; the loop that runs
  the chain (`Search.SearchFiles.EscapeSpecialCharacters`) is proved with it
  to compute `Escape`, which says that no backslash the chain inserts is ever
  escaped again.
*/
module QueryEscaping {
  import opened JavaText

  /** The special tokens, in the order the chain replaces them. */
  const Specials: seq<string> :=
    ["\\", "+", "-", "&&", "||", "!", "(", ")", "{", "}", "[", "]", "^", "\"", "~", "*", "?", ":", "/"]

  /** A token the escaping knows about: one or two characters. */
  predicate Token(t: string)
  {
    1 <= |t| <= 2
  }

  /**
    `s` with each occurrence of one of `tokens` preceded by a backslash,
    scanning left to right; a two-character token is matched before a
    one-character one.
  */
  function Esc(s: string, tokens: seq<string>): (r: string)
    ensures |s| <= |r|
    decreases |s|
  {
    if s == [] then []
    else if |s| >= 2 && s[..2] in tokens then ['\\'] + s[..2] + Esc(s[2..], tokens)
    else if [s[0]] in tokens then ['\\', s[0]] + Esc(s[1..], tokens)
    else [s[0]] + Esc(s[1..], tokens)
  }

  /** The intended escaping of a query string. */
  function Escape(s: string): string
  {
    Esc(s, Specials)
  }

  /** One step of the chain: `s.replace(t, "\\" + t)`. */
  function ReplaceToken(s: string, t: string): string
    requires t != []
  {
    Replace(s, t, ['\\'] + t)
  }

  /**
    No character of `t` occurs in any of `tokens`, and, once some token has
    been escaped, `t` holds no backslash: the replacements already made can
    neither hide nor create an occurrence of `t`.
  */
  predicate Fresh(t: string, tokens: seq<string>)
  {
    forall i, x :: 0 <= i < |tokens| && 0 <= x < |t| ==>
      t[x] != '\\' && forall y :: 0 <= y < |tokens[i]| ==> t[x] != tokens[i][y]
  }

  /** With no tokens, nothing is escaped. */
  lemma {:induction false} EscNothing(s: string)
    ensures Esc(s, []) == s
    decreases |s|
  {
    if s != [] {
      EscNothing(s[1..]);
      assert [s[0]] + s[1..] == s;
    }
  }

  /** The escaped text starts with the first character or with an inserted backslash. */
  lemma EscHead(s: string, tokens: seq<string>)
    requires s != []
    ensures Esc(s, tokens) != [] && (Esc(s, tokens)[0] == s[0] || Esc(s, tokens)[0] == '\\')
  {
  }

  /** What every link of the chain relies on: `t` and the tokens already escaped are one or two characters, and `t` is fresh. */
  predicate StepReady(tokens: seq<string>, t: string)
  {
    && Token(t) && t !in tokens && Fresh(t, tokens)
    && forall i :: 0 <= i < |tokens| ==> Token(tokens[i])
  }

  /** A token already escaped passes through the link for `t`. */
  lemma EscapedPairStep(s: string, tokens: seq<string>, t: string)
    requires StepReady(tokens, t) && |s| >= 2 && s[..2] in tokens
    requires ReplaceToken(Esc(s[2..], tokens), t) == Esc(s[2..], tokens + [t])
    ensures ReplaceToken(Esc(s, tokens), t) == Esc(s, tokens + [t])
  {
    var x := ['\\'] + s[..2];
    var i :| 0 <= i < |tokens| && tokens[i] == s[..2];
    assert forall k :: 0 <= k < |x| ==> x[k] != t[0] by {
      assert x[1] == tokens[i][0] && x[2] == tokens[i][1];
    }
    ReplacePassesThrough(x, Esc(s[2..], tokens), t, ['\\'] + t);
    assert s[..2] in tokens + [t];
  }

  /** A one-character token already escaped passes through the link for `t`. */
  lemma EscapedCharStep(s: string, tokens: seq<string>, t: string)
    requires StepReady(tokens, t) && s != [] && !(|s| >= 2 && s[..2] in tokens) && [s[0]] in tokens
    requires ReplaceToken(Esc(s[1..], tokens), t) == Esc(s[1..], tokens + [t])
    ensures ReplaceToken(Esc(s, tokens), t) == Esc(s, tokens + [t])
  {
    var x := ['\\', s[0]];
    var i :| 0 <= i < |tokens| && tokens[i] == [s[0]];
    assert forall k :: 0 <= k < |x| ==> x[k] != t[0] by {
      assert x[1] == tokens[i][0];
    }
    ReplacePassesThrough(x, Esc(s[1..], tokens), t, ['\\'] + t);
    assert !(|s| >= 2 && s[..2] in tokens + [t]);
    assert [s[0]] in tokens + [t];
  }

  /** A one-character `t` at the head is escaped by its link. */
  lemma NewCharStep(s: string, tokens: seq<string>, t: string)
    requires StepReady(tokens, t) && s != [] && !(|s| >= 2 && s[..2] in tokens) && [s[0]] !in tokens
    requires |t| == 1 && s[0] == t[0]
    requires ReplaceToken(Esc(s[1..], tokens), t) == Esc(s[1..], tokens + [t])
    ensures ReplaceToken(Esc(s, tokens), t) == Esc(s, tokens + [t])
  {
    var e := Esc(s, tokens);
    assert e == [s[0]] + Esc(s[1..], tokens);
    assert e[..1] == t;
    assert e[1..] == Esc(s[1..], tokens);
    assert !(|s| >= 2 && s[..2] in tokens + [t]);
    assert [s[0]] in tokens + [t];
  }

  /** Two leading characters that begin no token come out as they are. */
  lemma PlainPairHead(s: string, tokens: seq<string>)
    requires |s| >= 2 && s[..2] !in tokens && [s[0]] !in tokens
    requires forall i :: 0 <= i < |tokens| && tokens[i] != [] ==> tokens[i][0] != s[1]
    ensures Esc(s, tokens) == s[..2] + Esc(s[2..], tokens)
  {
    var rest := s[1..];
    assert !(|rest| >= 2 && rest[..2] in tokens);
    assert [rest[0]] !in tokens;
    assert rest[1..] == s[2..];
    assert Esc(rest, tokens) == [s[1]] + Esc(s[2..], tokens);
    assert [s[0]] + ([s[1]] + Esc(s[2..], tokens)) == s[..2] + Esc(s[2..], tokens);
  }

  /** A two-character `t` at the head is escaped by its link. */
  lemma NewPairStep(s: string, tokens: seq<string>, t: string)
    requires StepReady(tokens, t) && |s| >= 2 && s[..2] !in tokens && [s[0]] !in tokens
    requires |t| == 2 && s[..2] == t
    requires ReplaceToken(Esc(s[2..], tokens), t) == Esc(s[2..], tokens + [t])
    ensures ReplaceToken(Esc(s, tokens), t) == Esc(s, tokens + [t])
  {
    assert s[1] == t[1];
    PlainPairHead(s, tokens);
    var e := Esc(s, tokens);
    assert e[..2] == t;
    assert e[2..] == Esc(s[2..], tokens);
    assert s[..2] in tokens + [t];
  }

  /** The head character is not escaped before the link for `t`, and `t` does not start there. */
  lemma PlainStep(s: string, tokens: seq<string>, t: string)
    requires StepReady(tokens, t) && s != [] && !(|s| >= 2 && s[..2] in tokens) && [s[0]] !in tokens
    requires !(|t| == 1 && s[0] == t[0]) && !(|t| == 2 && |s| >= 2 && s[..2] == t)
    requires ReplaceToken(Esc(s[1..], tokens), t) == Esc(s[1..], tokens + [t])
    ensures ReplaceToken(Esc(s, tokens), t) == Esc(s, tokens + [t])
  {
    var e := Esc(s, tokens);
    assert e == [s[0]] + Esc(s[1..], tokens);
    if |e| >= |t| {
      assert e[..|t|] != t by {
        if s[0] == t[0] {
          assert |t| == 2 && |s| >= 2;
          EscHead(s[1..], tokens);
          assert e[1] == Esc(s[1..], tokens)[0];
          assert s[1] != t[1] by {
            assert s[..2] != t;
            assert s[..2][0] == t[0];
          }
          if tokens == [] {
            EscNothing(s[1..]);
          } else {
            assert t[1] != '\\';
          }
          assert e[..|t|][1] == e[1];
        } else {
          assert e[..|t|][0] == s[0];
        }
      }
      assert e[1..] == Esc(s[1..], tokens);
    } else {
      ReplaceShort(Esc(s[1..], tokens), t, ['\\'] + t);
    }
    assert !(|s| >= 2 && s[..2] in tokens + [t]);
    assert [s[0]] !in tokens + [t];
  }

  /**
    One link of the chain: replacing a fresh token `t` in text already escaped
    for `tokens` gives the text escaped for `tokens + [t]`.
  */
  lemma {:induction false} ReplaceStep(s: string, tokens: seq<string>, t: string)
    requires StepReady(tokens, t)
    ensures ReplaceToken(Esc(s, tokens), t) == Esc(s, tokens + [t])
    decreases |s|
  {
    if s == [] {
    } else if |s| >= 2 && s[..2] in tokens {
      ReplaceStep(s[2..], tokens, t);
      EscapedPairStep(s, tokens, t);
    } else if [s[0]] in tokens {
      ReplaceStep(s[1..], tokens, t);
      EscapedCharStep(s, tokens, t);
    } else if |t| == 1 && s[0] == t[0] {
      ReplaceStep(s[1..], tokens, t);
      NewCharStep(s, tokens, t);
    } else if |t| == 2 && |s| >= 2 && s[..2] == t {
      ReplaceStep(s[2..], tokens, t);
      NewPairStep(s, tokens, t);
    } else {
      ReplaceStep(s[1..], tokens, t);
      PlainStep(s, tokens, t);
    }
  }

  /** Every special token has one or two characters. */
  lemma SpecialsAreTokens()
    ensures forall i :: 0 <= i < |Specials| ==> Token(Specials[i])
  {
  }

  /** Each special token is fresh for the tokens the chain replaces before it. */
  lemma SpecialFresh(j: nat)
    requires j < |Specials|
    ensures Specials[j] !in Specials[..j] && Fresh(Specials[j], Specials[..j])
  {
  }

  /**
    The `j`-th link of the chain, applied to text escaped for the special
    tokens before it, escapes the `j`-th token as well.
  */
  lemma EscapeStep(s: string, j: nat)
    requires j < |Specials|
    ensures ReplaceToken(Esc(s, Specials[..j]), Specials[j]) == Esc(s, Specials[..j + 1])
  {
    SpecialsAreTokens();
    SpecialFresh(j);
    ReplaceStep(s, Specials[..j], Specials[j]);
    assert Specials[..j] + [Specials[j]] == Specials[..j + 1];
  }

  // ---------------------------------------------------------------------------
  // What the escaping leaves alone, and that it loses nothing
  // ---------------------------------------------------------------------------

  /** Token `t` occurs in `s` starting at position `k`. */
  predicate OccursAt(s: string, t: string, k: int)
  {
    0 <= k && k + |t| <= |s| && s[k..k + |t|] == t
  }

  /** None of `tokens` occurs anywhere in `s`. */
  predicate FreeOf(s: string, tokens: seq<string>)
  {
    forall k, i :: 0 <= k < |s| && 0 <= i < |tokens| ==> !OccursAt(s, tokens[i], k)
  }

  /** Text holding none of the tokens comes out unchanged. */
  lemma {:induction false} EscFree(s: string, tokens: seq<string>)
    requires FreeOf(s, tokens)
    ensures Esc(s, tokens) == s
    decreases |s|
  {
    if s != [] {
      if |s| >= 2 && s[..2] in tokens {
        var i :| 0 <= i < |tokens| && tokens[i] == s[..2];
        assert OccursAt(s, tokens[i], 0);
      } else if [s[0]] in tokens {
        var i :| 0 <= i < |tokens| && tokens[i] == [s[0]];
        assert OccursAt(s, tokens[i], 0);
      } else {
        forall k, i | 0 <= k < |s[1..]| && 0 <= i < |tokens|
          ensures !OccursAt(s[1..], tokens[i], k)
        {
          if OccursAt(s[1..], tokens[i], k) {
            assert s[1..][k..k + |tokens[i]|] == s[k + 1..k + 1 + |tokens[i]|];
            assert OccursAt(s, tokens[i], k + 1);
          }
        }
        EscFree(s[1..], tokens);
        assert [s[0]] + s[1..] == s;
      }
    }
  }

  /** Text that comes out no longer than it went in does not start with a token. */
  lemma EscSameLengthHead(s: string, tokens: seq<string>)
    requires s != [] && |Esc(s, tokens)| == |s|
    ensures !(|s| >= 2 && s[..2] in tokens) && [s[0]] !in tokens
    ensures |Esc(s[1..], tokens)| == |s[1..]|
  {
  }

  /** A text with no token at its head and none in its tail holds none at all. */
  lemma FreeOfCons(s: string, tokens: seq<string>)
    requires forall i :: 0 <= i < |tokens| ==> Token(tokens[i])
    requires s != [] && !(|s| >= 2 && s[..2] in tokens) && [s[0]] !in tokens
    requires FreeOf(s[1..], tokens)
    ensures FreeOf(s, tokens)
  {
    forall k, i | 0 <= k < |s| && 0 <= i < |tokens|
      ensures !OccursAt(s, tokens[i], k)
    {
      if k == 0 {
        assert tokens[i] in tokens;
        if |tokens[i]| == 1 {
          assert s[..1] == [s[0]];
        }
      } else {
        assert !OccursAt(s[1..], tokens[i], k - 1);
        if k + |tokens[i]| <= |s| {
          assert s[1..][k - 1..k - 1 + |tokens[i]|] == s[k..k + |tokens[i]|];
        }
      }
    }
  }

  /** Text that comes out no longer than it went in held none of the tokens. */
  lemma {:induction false} EscSameLength(s: string, tokens: seq<string>)
    requires forall i :: 0 <= i < |tokens| ==> Token(tokens[i])
    requires |Esc(s, tokens)| == |s|
    ensures FreeOf(s, tokens)
    decreases |s|
  {
    if s != [] {
      EscSameLengthHead(s, tokens);
      EscSameLength(s[1..], tokens);
      FreeOfCons(s, tokens);
    }
  }

  /**
    The query comes back unchanged exactly when it holds none of the special
    tokens.
  */
  lemma EscapeUnchanged(s: string)
    ensures Escape(s) == s <==> FreeOf(s, Specials)
  {
    SpecialsAreTokens();
    if FreeOf(s, Specials) {
      EscFree(s, Specials);
    }
    if Escape(s) == s {
      EscSameLength(s, Specials);
    }
  }

  /** Removes each backslash and keeps the character after it as it is. */
  function Unescape(s: string): (r: string)
    ensures |r| <= |s|
    decreases |s|
  {
    if s == [] then []
    else if s[0] == '\\' && |s| >= 2 then [s[1]] + Unescape(s[2..])
    else [s[0]] + Unescape(s[1..])
  }

  /**
    Tokens whose escaping can be undone: the backslash is one of them (so no
    unescaped backslash is left behind) and no two-character token ends in one.
  */
  predicate Undoable(tokens: seq<string>)
  {
    && "\\" in tokens
    && forall i :: 0 <= i < |tokens| && |tokens[i]| == 2 ==> tokens[i][1] != '\\'
  }

  lemma {:induction false} UnescapeEsc(s: string, tokens: seq<string>)
    requires Undoable(tokens)
    ensures Unescape(Esc(s, tokens)) == s
    decreases |s|
  {
    if s == [] {
    } else if |s| >= 2 && s[..2] in tokens {
      var rest := Esc(s[2..], tokens);
      var e := ['\\'] + s[..2] + rest;
      assert e[1..][0] == s[0] && e[2..][0] == s[1];
      var i :| 0 <= i < |tokens| && tokens[i] == s[..2];
      assert s[1] != '\\';
      assert e[2..] == [s[1]] + rest && e[3..] == rest;
      UnescapeEsc(s[2..], tokens);
      assert [s[0]] + ([s[1]] + s[2..]) == s;
    } else if [s[0]] in tokens {
      var rest := Esc(s[1..], tokens);
      var e := ['\\', s[0]] + rest;
      assert e[2..] == rest;
      UnescapeEsc(s[1..], tokens);
      assert [s[0]] + s[1..] == s;
    } else {
      var rest := Esc(s[1..], tokens);
      assert s[0] != '\\';
      assert ([s[0]] + rest)[1..] == rest;
      UnescapeEsc(s[1..], tokens);
      assert [s[0]] + s[1..] == s;
    }
  }

  /** Escaping loses nothing: dropping the inserted backslashes gives the query back. */
  lemma EscapeRoundTrip(s: string)
    ensures Unescape(Escape(s)) == s
  {
    assert Specials[0] == "\\";
    UnescapeEsc(s, Specials);
  }

  /** Different queries stay different once escaped. */
  lemma EscapeInjective(a: string, b: string)
    requires Escape(a) == Escape(b)
    ensures a == b
  {
    EscapeRoundTrip(a);
    EscapeRoundTrip(b);
  }
}
