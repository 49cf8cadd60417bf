/**
 * A model of the part of the `regex` crate that the pattern compiler uses,
 * restricted to the regular expressions the compiler can emit: an anchored
 * sequence of literal characters and bounded wildcards `([^:@]*)`.
 *
 * A compiled expression is a sequence of tokens. `Render` writes it as regex
 * text, `Lex` reads such text back, `New` plays `Regex::new` (it accepts
 * `^` + body + `$` whose body lexes) and `IsMatch` plays `Regex::is_match`
 * on the anchored expression, that is a whole-string match.
 */
module RegexModel {
  import opened Wrappers

  datatype Token =
    | Lit(c: char)  // exactly the character c
    | Star          // zero or more characters, none of them ':' or '@'

  /** The characters a wildcard can never consume. */
  predicate IsSeparator(c: char) {
    c == ':' || c == '@'
  }

  /** `tokens` matches all of `s`, from its first character to its last. */
  predicate Matches(tokens: seq<Token>, s: string)
    decreases |tokens|, |s|
  {
    if tokens == [] then s == []
    else match tokens[0]
      case Lit(c) => |s| > 0 && s[0] == c && Matches(tokens[1..], s[1..])
      case Star =>
        Matches(tokens[1..], s) || (|s| > 0 && !IsSeparator(s[0]) && Matches(tokens, s[1..]))
  }

  // ---------------------------------------------------------------------------
  // Regex text

  /** The characters `regex::escape` puts a backslash in front of. */
  predicate IsMeta(c: char) {
    c in {'\\', '.', '+', '*', '?', '(', ')', '|', '[', ']', '{', '}', '^', '$', '#', '&', '-', '~'}
  }

  /** `regex::escape` applied to a one-character string. */
  function Escape(c: char): string {
    if IsMeta(c) then ['\\', c] else [c]
  }

  /** The text of a wildcard: a group around the starred class `[^:@]`. */
  const StarText: string := "([^:@]*)"

  function Fragment(t: Token): string {
    match t
    case Lit(c) => Escape(c)
    case Star => StarText
  }

  /** The regex text of a token sequence, fragment after fragment. */
  function Render(tokens: seq<Token>): string {
    if tokens == [] then [] else Fragment(tokens[0]) + Render(tokens[1..])
  }

  lemma {:induction false} RenderAppend(a: seq<Token>, b: seq<Token>)
    ensures Render(a + b) == Render(a) + Render(b)
  {
    if a == [] {
      assert a + b == b;
    } else {
      assert (a + b)[1..] == a[1..] + b;
      RenderAppend(a[1..], b);
    }
  }

  /**
   * Reads regex text of the fragment back into tokens: an escaped
   * metacharacter, the wildcard group, or a plain character that is not a
   * metacharacter. Anything else is outside the fragment and is refused.
   */
  function Lex(s: string): Option<seq<Token>>
    decreases |s|
  {
    if s == [] then Some([])
    else if s[0] == '\\' then
      if |s| >= 2 && IsMeta(s[1]) then
        match Lex(s[2..])
        case Some(rest) => Some([Lit(s[1])] + rest)
        case None => None
      else None
    else if |StarText| <= |s| && s[..|StarText|] == StarText then
      match Lex(s[|StarText|..])
      case Some(rest) => Some([Star] + rest)
      case None => None
    else if IsMeta(s[0]) then None
    else
      match Lex(s[1..])
      case Some(rest) => Some([Lit(s[0])] + rest)
      case None => None
  }

  /** Whatever `Lex` reads renders back to the text it read. */
  lemma {:induction false} LexSound(s: string)
    ensures Lex(s).Some? ==> Render(Lex(s).value) == s
    decreases |s|
  {
    if s != [] && Lex(s).Some? {
      var ts := Lex(s).value;
      if s[0] == '\\' {
        LexSound(s[2..]);
        assert ts[0] == Lit(s[1]) && ts[1..] == Lex(s[2..]).value;
        assert s == ['\\', s[1]] + s[2..];
      } else if |StarText| <= |s| && s[..|StarText|] == StarText {
        LexSound(s[|StarText|..]);
        assert ts[0] == Star && ts[1..] == Lex(s[|StarText|..]).value;
        assert s == StarText + s[|StarText|..];
      } else {
        LexSound(s[1..]);
        assert ts[0] == Lit(s[0]) && ts[1..] == Lex(s[1..]).value;
        assert s == [s[0]] + s[1..];
      }
    }
  }

  /** Lexing one fragment in front of some text reads back that token. */
  lemma LexFragment(t: Token, rest: string)
    ensures Lex(Fragment(t) + rest) ==
      match Lex(rest)
      case Some(ts) => Some([t] + ts)
      case None => None
  {
    var s := Fragment(t) + rest;
    match t
    case Lit(c) =>
      if IsMeta(c) {
        assert s[0] == '\\' && s[1] == c && s[2..] == rest;
      } else {
        assert s[0] == c && s[1..] == rest;
        assert s[0] != StarText[0];
      }
    case Star =>
      assert s[..|StarText|] == StarText && s[|StarText|..] == rest;
  }

  /** Round trip: the text of a token sequence reads back as that sequence. */
  lemma {:induction false} LexRender(tokens: seq<Token>)
    ensures Lex(Render(tokens)) == Some(tokens)
  {
    if tokens != [] {
      LexRender(tokens[1..]);
      LexFragment(tokens[0], Render(tokens[1..]));
      assert [tokens[0]] + tokens[1..] == tokens;
    }
  }

  // ---------------------------------------------------------------------------
  // Compiled expressions

  /** A compiled expression: its source text and the tokens between its anchors. */
  datatype Regex = Regex(text: string, tokens: seq<Token>)

  /** Text outside the modelled fragment; in the crate, a `regex::Error`. */
  datatype Error = Syntax(text: string)

  /** `Regex::new`: compiles an anchored expression `^` + body + `$`. */
  function New(text: string): Result<Regex, Error> {
    if |text| >= 2 && text[0] == '^' && text[|text| - 1] == '$' then
      match Lex(text[1..|text| - 1])
      case Some(tokens) =>
        Ok(Regex(text, tokens))
      case None => Err(Syntax(text))
    else Err(Syntax(text))
  }

  /** What `New` accepts is anchored text whose body is the rendering of the tokens it keeps. */
  lemma NewSound(text: string)
    ensures New(text).Ok? ==>
      New(text).value.text == text && text == "^" + Render(New(text).value.tokens) + "$"
  {
    if New(text).Ok? {
      LexSound(text[1..|text| - 1]);
      assert text == "^" + text[1..|text| - 1] + "$";
    }
  }

  /** Every rendered token sequence compiles, to exactly those tokens. */
  lemma NewRender(tokens: seq<Token>)
    ensures New("^" + Render(tokens) + "$") == Ok(Regex("^" + Render(tokens) + "$", tokens))
  {
    var text := "^" + Render(tokens) + "$";
    assert text[1..|text| - 1] == Render(tokens);
    LexRender(tokens);
  }

  /** `Regex::is_match` on an expression anchored at both ends. */
  predicate IsMatch(re: Regex, s: string) {
    Matches(re.tokens, s)
  }

  // ---------------------------------------------------------------------------
  // Matching and concatenation

  /** Two matches side by side match the concatenated tokens. */
  lemma {:induction false} MatchesAppend(a: seq<Token>, b: seq<Token>, x: string, y: string)
    requires Matches(a, x) && Matches(b, y)
    ensures Matches(a + b, x + y)
    decreases |a|, |x|
  {
    if a == [] {
      assert a + b == b && x + y == y;
    } else {
      assert (a + b)[0] == a[0] && (a + b)[1..] == a[1..] + b;
      match a[0]
      case Lit(c) =>
        assert (x + y)[1..] == x[1..] + y;
        MatchesAppend(a[1..], b, x[1..], y);
      case Star =>
        if Matches(a[1..], x) {
          MatchesAppend(a[1..], b, x, y);
        } else {
          assert (x + y)[1..] == x[1..] + y;
          MatchesAppend(a, b, x[1..], y);
        }
    }
  }

  /** A match of concatenated tokens cuts the string into a match of each part. */
  lemma {:induction false} MatchesSplit(a: seq<Token>, b: seq<Token>, s: string) returns (i: nat)
    requires Matches(a + b, s)
    ensures i <= |s| && Matches(a, s[..i]) && Matches(b, s[i..])
    decreases |a|, |s|
  {
    if a == [] {
      assert a + b == b;
      i := 0;
    } else {
      assert (a + b)[0] == a[0] && (a + b)[1..] == a[1..] + b;
      match a[0]
      case Lit(c) =>
        var j := MatchesSplit(a[1..], b, s[1..]);
        i := j + 1;
        assert s[..i][1..] == s[1..][..j];
        assert s[i..] == s[1..][j..];
      case Star =>
        if Matches(a[1..] + b, s) {
          i := MatchesSplit(a[1..], b, s);
        } else {
          var j := MatchesSplit(a, b, s[1..]);
          i := j + 1;
          assert s[..i][1..] == s[1..][..j];
          assert s[i..] == s[1..][j..];
        }
    }
  }

  /** A match of `@`, `ta`, `:`, `tb` reads `@a:b` with `ta` matching `a` and `tb` matching `b`. */
  lemma MatchesAround(ta: seq<Token>, tb: seq<Token>, s: string) returns (a: string, b: string)
    requires Matches([Lit('@')] + ta + [Lit(':')] + tb, s)
    ensures s == "@" + a + ":" + b
    ensures Matches(ta, a) && Matches(tb, b)
  {
    var tokens := [Lit('@')] + ta + [Lit(':')] + tb;
    assert tokens[0] == Lit('@') && tokens[1..] == ta + ([Lit(':')] + tb);
    var i := MatchesSplit(ta, [Lit(':')] + tb, s[1..]);
    a := s[1..][..i];
    var rest := s[1..][i..];
    assert ([Lit(':')] + tb)[0] == Lit(':') && ([Lit(':')] + tb)[1..] == tb;
    b := rest[1..];
    assert rest == [':'] + b;
    assert s == [s[0]] + s[1..];
    assert s[1..] == a + rest;
  }

  /** The converse of `MatchesAround`. */
  lemma MatchesAroundJoin(ta: seq<Token>, tb: seq<Token>, a: string, b: string)
    requires Matches(ta, a) && Matches(tb, b)
    ensures Matches([Lit('@')] + ta + [Lit(':')] + tb, "@" + a + ":" + b)
  {
    assert Matches([Lit(':')] + tb, [':'] + b);
    MatchesAppend(ta, [Lit(':')] + tb, a, [':'] + b);
    assert Matches([Lit('@')] + (ta + ([Lit(':')] + tb)), ['@'] + (a + ([':'] + b)));
    assert [Lit('@')] + (ta + ([Lit(':')] + tb)) == [Lit('@')] + ta + [Lit(':')] + tb;
    assert ['@'] + (a + ([':'] + b)) == "@" + a + ":" + b;
  }

  /** No token of the sequence is a literal separator. */
  predicate SeparatorFree(tokens: seq<Token>) {
    forall i :: 0 <= i < |tokens| ==> !(tokens[i].Lit? && IsSeparator(tokens[i].c))
  }

  /** Without literal separators, a match cannot contain a separator. */
  lemma {:induction false} MatchesSeparatorFree(tokens: seq<Token>, s: string)
    requires SeparatorFree(tokens) && Matches(tokens, s)
    ensures forall k :: 0 <= k < |s| ==> !IsSeparator(s[k])
    decreases |tokens|, |s|
  {
    if tokens != [] {
      assert SeparatorFree(tokens[1..]) by {
        forall i | 0 <= i < |tokens[1..]| ensures !(tokens[1..][i].Lit? && IsSeparator(tokens[1..][i].c)) {
          assert tokens[1..][i] == tokens[i + 1];
        }
      }
      match tokens[0]
      case Lit(c) =>
        MatchesSeparatorFree(tokens[1..], s[1..]);
        assert forall k :: 1 <= k < |s| ==> s[k] == s[1..][k - 1];
      case Star =>
        if Matches(tokens[1..], s) {
          MatchesSeparatorFree(tokens[1..], s);
        } else {
          MatchesSeparatorFree(tokens, s[1..]);
          assert forall k :: 1 <= k < |s| ==> s[k] == s[1..][k - 1];
        }
    }
  }

  /** A sequence of literals only, spelling `w`. */
  function Literals(w: string): (tokens: seq<Token>)
    ensures |tokens| == |w|
    ensures forall i :: 0 <= i < |w| ==> tokens[i] == Lit(w[i])
  {
    seq(|w|, i requires 0 <= i < |w| => Lit(w[i]))
  }

  /** Literal tokens match their own spelling and nothing else. */
  lemma {:induction false} LiteralsMatchExactly(w: string, s: string)
    ensures Matches(Literals(w), s) <==> s == w
  {
    if w != [] {
      assert Literals(w)[1..] == Literals(w[1..]);
      if s != [] {
        LiteralsMatchExactly(w[1..], s[1..]);
        assert s == [s[0]] + s[1..] && w == [w[0]] + w[1..];
      }
    }
  }

  /** A lone wildcard matches exactly the strings without separators. */
  lemma {:induction false} StarMatchesExactly(s: string)
    ensures Matches([Star], s) <==> forall k :: 0 <= k < |s| ==> !IsSeparator(s[k])
    decreases |s|
  {
    assert [Star][1..] == [];
    if s != [] {
      StarMatchesExactly(s[1..]);
      assert forall k :: 1 <= k < |s| ==> s[k] == s[1..][k - 1];
    }
  }

  /** Literal tokens in front force the string to begin with their spelling. */
  lemma MatchesLiteralPrefix(w: string, rest: seq<Token>, s: string)
    requires Matches(Literals(w) + rest, s)
    ensures |w| <= |s| && s[..|w|] == w
  {
    var i := MatchesSplit(Literals(w), rest, s);
    LiteralsMatchExactly(w, s[..i]);
  }

  /** Literal tokens at the back force the string to end with their spelling. */
  lemma MatchesLiteralSuffix(front: seq<Token>, w: string, s: string)
    requires Matches(front + Literals(w), s)
    ensures |w| <= |s| && s[|s| - |w|..] == w
  {
    var i := MatchesSplit(front, Literals(w), s);
    LiteralsMatchExactly(w, s[i..]);
  }
}
