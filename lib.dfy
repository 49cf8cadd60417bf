/**
 * The allow-list compiler of `src/lib.rs`: wildcard patterns of the shape
 * `@localpart:domain` are validated and turned into anchored expressions,
 * and a user id is allowed when one of the compiled expressions matches it.
 */
module Mxidwc {
  import opened Wrappers
  import opened Str
  import opened RegexModel

  datatype PatternError =
    | InvalidPattern(message: string)
    | RegexError(cause: RegexModel.Error)

  type PatternResult<T> = Result<T, PatternError>

  const NotFullyQualified: string := "patterns need to be fully-qualified, starting with a @"
  const MoreThanOneAt: string := "patterns cannot contain more than one @"
  const NotTwoParts: string := "expected exactly 2 parts in the pattern, separated by `:`"
  const EmptyPart: string := "rejecting empty part"

  // ---------------------------------------------------------------------------
  // get_pattern: one part of a pattern, translated character by character

  /** `*` is the wildcard; every other character stands for itself. */
  function TokenOf(c: char): Token {
    if c == '*' then Star else Lit(c)
  }

  function Tokenize(part: string): (tokens: seq<Token>)
    ensures |tokens| == |part|
  {
    if part == [] then [] else [TokenOf(part[0])] + Tokenize(part[1..])
  }

  /** Each character becomes its own token. */
  lemma {:induction false} TokenizeAt(part: string)
    ensures forall i :: 0 <= i < |part| ==> Tokenize(part)[i] == TokenOf(part[i])
  {
    if part != [] {
      TokenizeAt(part[1..]);
      forall i | 0 <= i < |part|
        ensures Tokenize(part)[i] == TokenOf(part[i])
      {
        if i > 0 {
          assert Tokenize(part)[i] == Tokenize(part[1..])[i - 1];
          assert part[1..][i - 1] == part[i];
        }
      }
    }
  }

  lemma {:induction false} TokenizeAppend(a: string, b: string)
    ensures Tokenize(a + b) == Tokenize(a) + Tokenize(b)
  {
    if a == [] {
      assert a + b == b;
    } else {
      assert (a + b)[0] == a[0];
      assert (a + b)[1..] == a[1..] + b;
      TokenizeAppend(a[1..], b);
    }
  }

  /** The regex text a part translates to. */
  function Translate(part: string): string {
    Render(Tokenize(part))
  }

  /** The translation of a single character: the wildcard group or the escaped character. */
  lemma TranslateChar(c: char)
    ensures Translate([c]) == if c == '*' then "([^:@]*)" else Escape(c)
  {
    assert Tokenize([c]) == [TokenOf(c)];
    assert [TokenOf(c)][1..] == [];
    assert Render([TokenOf(c)]) == Fragment(TokenOf(c)) + Render([]);
  }

  /** Translation works character by character, so it distributes over concatenation. */
  lemma TranslateAppend(a: string, b: string)
    ensures Translate(a + b) == Translate(a) + Translate(b)
  {
    TokenizeAppend(a, b);
    RenderAppend(Tokenize(a), Tokenize(b));
  }

  /** Without wildcards, a part becomes literal tokens only. */
  lemma TokenizeStarFree(part: string)
    requires '*' !in part
    ensures Tokenize(part) == Literals(part)
  {
    TokenizeAt(part);
    assert forall i :: 0 <= i < |part| ==> part[i] != '*';
  }

  /** Characters that are not regex metacharacters translate to themselves. */
  lemma {:induction false} TranslatePlain(part: string)
    requires forall c :: c in part ==> !IsMeta(c)
    ensures Translate(part) == part
  {
    if part != [] {
      assert forall c :: c in part[1..] ==> c in part;
      TranslatePlain(part[1..]);
      var t := TokenOf(part[0]);
      assert part[0] in part;
      assert t == Lit(part[0]);
      assert ([t] + Tokenize(part[1..]))[1..] == Tokenize(part[1..]);
      assert part == [part[0]] + part[1..];
    }
  }

  /** What `get_pattern` returns for a part. */
  function SegmentPattern(part: string): PatternResult<string> {
    if part == [] then Err(InvalidPattern(EmptyPart)) else Ok(Translate(part))
  }

  /** `get_pattern`: builds the translation by appending one fragment per character. */
  method GetPattern(part: string) returns (r: PatternResult<string>)
    ensures r == SegmentPattern(part)
  {
    if part == [] {
      return Err(InvalidPattern(EmptyPart));
    }
    var pattern: string := "";
    for i := 0 to |part|
      invariant pattern == Translate(part[..i])
    {
      var c := part[i];
      if c == '*' {
        pattern := pattern + "([^:@]*)";
      } else {
        pattern := pattern + Escape(c);
      }
      TranslateChar(c);
      TranslateAppend(part[..i], [c]);
      assert part[..i + 1] == part[..i] + [c];
    }
    assert part[..|part|] == part;
    return Ok(pattern);
  }

  // ---------------------------------------------------------------------------
  // parse_pattern

  /** The shape `parse_pattern` accepts: `@`, then text with exactly one `:` in it, not at either end, and no further `@`. */
  predicate WellFormed(pattern: string) {
    && |pattern| > 0 && pattern[0] == '@'
    && '@' !in pattern[1..]
    && Count(':', pattern[1..]) == 1
    && pattern[1] != ':' && pattern[|pattern| - 1] != ':'
  }

  /** The expression compiled from the pattern `@l:d`. */
  function CompiledFrom(l: string, d: string): Regex {
    Regex("^@" + Translate(l) + ":" + Translate(d) + "$", [Lit('@')] + Tokenize(l) + [Lit(':')] + Tokenize(d))
  }

  /**
   * `parse_pattern`: validates the pattern in a fixed order, stopping at the
   * first failed check, then compiles `^@<localpart>:<domain>$`.
   */
  function ParsePattern(pattern: string): PatternResult<Regex>
  {
    if |pattern| == 0 || pattern[0] != '@' then Err(InvalidPattern(NotFullyQualified))
    else
      var rest := pattern[1..];
      if '@' in rest then Err(InvalidPattern(MoreThanOneAt))
      else
        var parts := Split(rest, ':');
        if |parts| != 2 then Err(InvalidPattern(NotTwoParts))
        else
          match SegmentPattern(parts[0])
          case Err(e) => Err(e)
          case Ok(localpart) =>
            match SegmentPattern(parts[1])
            case Err(e) => Err(e)
            case Ok(domain) =>
              match New("^@" + localpart + ":" + domain + "$")
              case Err(e) => Err(RegexError(e))
              case Ok(re) => Ok(re)
  }

  /** The checks of `parse_pattern`, each with its message, in the order they run. */
  lemma ParsePatternErrors(pattern: string)
    ensures |pattern| == 0 || pattern[0] != '@' ==>
      ParsePattern(pattern) == Err(InvalidPattern(NotFullyQualified))
    ensures |pattern| > 0 && pattern[0] == '@' && '@' in pattern[1..] ==>
      ParsePattern(pattern) == Err(InvalidPattern(MoreThanOneAt))
    ensures |pattern| > 0 && pattern[0] == '@' && '@' !in pattern[1..] && Count(':', pattern[1..]) != 1 ==>
      ParsePattern(pattern) == Err(InvalidPattern(NotTwoParts))
    ensures |pattern| > 0 && pattern[0] == '@' && '@' !in pattern[1..] && Count(':', pattern[1..]) == 1 &&
            (pattern[1] == ':' || pattern[|pattern| - 1] == ':') ==>
              ParsePattern(pattern) == Err(InvalidPattern(EmptyPart))
  {
    if |pattern| > 0 && pattern[0] == '@' && '@' !in pattern[1..] {
      var parts := Split(pattern[1..], ':');
      SplitCount(pattern[1..], ':');
      SplitJoin(pattern[1..], ':');
      SplitPiecesFree(pattern[1..], ':');
      if |parts| == 2 {
        JoinTwo(parts, ':');
      }
    }
  }

  /** The tokens `@`, `a`, `:`, `b` render to `@`, the text of `a`, `:`, the text of `b`. */
  lemma RenderAround(a: seq<Token>, b: seq<Token>)
    ensures Render([Lit('@')] + a + [Lit(':')] + b) == "@" + Render(a) + ":" + Render(b)
  {
    RenderAppend([Lit('@')] + a + [Lit(':')], b);
    RenderAppend([Lit('@')] + a, [Lit(':')]);
    RenderAppend([Lit('@')], a);
    assert Render([Lit('@')]) == "@";
    assert Render([Lit(':')]) == ":";
  }

  /** The tokens of a compiled pattern, rendered, are its text without the anchors. */
  lemma RenderCompiled(l: string, d: string)
    ensures "^" + Render(CompiledFrom(l, d).tokens) + "$" == CompiledFrom(l, d).text
  {
    RenderAround(Tokenize(l), Tokenize(d));
    assert "^@" == "^" + "@";
  }

  /** A pattern `@l:d` whose parts are non-empty and hold no `@` or `:` compiles to `CompiledFrom(l, d)`. */
  lemma ParseComposed(l: string, d: string)
    requires l != [] && d != []
    requires '@' !in l && ':' !in l && '@' !in d && ':' !in d
    ensures ParsePattern("@" + l + ":" + d) == Ok(CompiledFrom(l, d))
  {
    var pattern := "@" + l + ":" + d;
    assert pattern[1..] == l + [':'] + d;
    SplitAtOnly(l, d, ':');
    RenderCompiled(l, d);
    NewRender(CompiledFrom(l, d).tokens);
  }

  /** A pattern `@` + text, where the text splits into two pieces at `:`, is `@l:d` for those pieces, neither holding a `:`. */
  lemma SplitPattern(pattern: string) returns (l: string, d: string)
    requires |pattern| > 0 && pattern[0] == '@' && |Split(pattern[1..], ':')| == 2
    ensures Split(pattern[1..], ':') == [l, d]
    ensures pattern == "@" + l + ":" + d
    ensures ':' !in l && ':' !in d
    ensures '@' !in pattern[1..] ==> '@' !in l && '@' !in d
  {
    var rest := pattern[1..];
    l, d := SplitTwo(rest, ':');
    assert pattern == [pattern[0]] + rest;
  }

  /** A pattern that compiles has the shape `@l:d` and compiles to `CompiledFrom(l, d)`. */
  lemma ParsedShape(pattern: string) returns (l: string, d: string)
    requires ParsePattern(pattern).Ok?
    ensures pattern == "@" + l + ":" + d
    ensures l != [] && d != []
    ensures '@' !in l && ':' !in l && '@' !in d && ':' !in d
    ensures ParsePattern(pattern) == Ok(CompiledFrom(l, d))
  {
    l, d := SplitPattern(pattern);
    RenderCompiled(l, d);
    NewRender(CompiledFrom(l, d).tokens);
  }

  /** `@l:d` with non-empty parts free of `@` and `:` is well formed. */
  lemma ComposedWellFormed(l: string, d: string)
    requires l != [] && d != []
    requires '@' !in l && ':' !in l && '@' !in d && ':' !in d
    ensures WellFormed("@" + l + ":" + d)
  {
    var pattern := "@" + l + ":" + d;
    assert pattern[1..] == l + [':'] + d;
    CountAppend(':', l + [':'], d);
    CountAppend(':', l, [':']);
    assert Count(':', [':']) == 1;
  }

  /** A pattern that compiles is well formed. */
  lemma ParsedWellFormed(pattern: string)
    requires ParsePattern(pattern).Ok?
    ensures WellFormed(pattern)
  {
    var l, d := ParsedShape(pattern);
    ComposedWellFormed(l, d);
  }

  /** A well-formed pattern compiles. */
  lemma WellFormedParses(pattern: string)
    requires WellFormed(pattern)
    ensures ParsePattern(pattern).Ok?
  {
    SplitCount(pattern[1..], ':');
    var l, d := SplitPattern(pattern);
    ParseComposed(l, d);
  }

  /** `parse_pattern` succeeds exactly on well-formed patterns, and all its failures are validation failures. */
  lemma ParseSucceedsIff(pattern: string)
    ensures ParsePattern(pattern).Ok? <==> WellFormed(pattern)
    ensures ParsePattern(pattern).Err? ==> ParsePattern(pattern).error.InvalidPattern?
  {
    ParsePatternErrors(pattern);
    if ParsePattern(pattern).Ok? {
      ParsedWellFormed(pattern);
    } else if WellFormed(pattern) {
      WellFormedParses(pattern);
    }
  }

  // ---------------------------------------------------------------------------
  // What a compiled pattern accepts

  /** A wildcard never stands for a separator, so a part's tokens hold no literal separator. */
  lemma TokenizeSeparatorFree(part: string)
    requires '@' !in part && ':' !in part
    ensures SeparatorFree(Tokenize(part))
  {
    TokenizeAt(part);
  }

  /** An id accepted by `CompiledFrom(l, d)` is `@a:b` with `a` matched by the localpart and `b` by the domain. */
  lemma AcceptedIdSplit(l: string, d: string, s: string) returns (a: string, b: string)
    requires IsMatch(CompiledFrom(l, d), s)
    ensures s == "@" + a + ":" + b
    ensures Matches(Tokenize(l), a) && Matches(Tokenize(d), b)
  {
    a, b := MatchesAround(Tokenize(l), Tokenize(d), s);
  }

  /** The converse: `@a:b` is accepted when the localpart matches `a` and the domain matches `b`. */
  lemma AcceptedIdJoin(l: string, d: string, a: string, b: string)
    requires Matches(Tokenize(l), a) && Matches(Tokenize(d), b)
    ensures IsMatch(CompiledFrom(l, d), "@" + a + ":" + b)
  {
    MatchesAroundJoin(Tokenize(l), Tokenize(d), a, b);
  }

  /** An id accepted by `CompiledFrom(l, d)`, for parts free of separators, holds one `@`, in front, and one `:`. */
  lemma AcceptedIdCounts(l: string, d: string, s: string)
    requires '@' !in l && ':' !in l && '@' !in d && ':' !in d
    requires IsMatch(CompiledFrom(l, d), s)
    ensures |s| > 0 && s[0] == '@'
    ensures Count('@', s) == 1 && Count(':', s) == 1
  {
    var a, b := AcceptedIdSplit(l, d, s);
    TokenizeSeparatorFree(l);
    TokenizeSeparatorFree(d);
    MatchesSeparatorFree(Tokenize(l), a);
    MatchesSeparatorFree(Tokenize(d), b);
    assert '@' !in a && ':' !in a && '@' !in b && ':' !in b;
    IdCounts(a, b);
  }

  /** `@a:b` with `a` and `b` free of separators holds one `@` and one `:`. */
  lemma IdCounts(a: string, b: string)
    requires '@' !in a && ':' !in a && '@' !in b && ':' !in b
    ensures Count('@', "@" + a + ":" + b) == 1 && Count(':', "@" + a + ":" + b) == 1
  {
    CountAppend('@', "@" + a + ":", b);
    CountAppend('@', "@" + a, ":");
    CountAppend('@', "@", a);
    CountAppend(':', "@" + a + ":", b);
    CountAppend(':', "@" + a, ":");
    CountAppend(':', "@", a);
    assert Count('@', "@") == 1 && Count(':', "@") == 0;
    assert Count('@', ":") == 0 && Count(':', ":") == 1;
  }

  /**
   * Soundness of the compiled matcher: an accepted id holds exactly one `@`,
   * in front, and exactly one `:`, since wildcards never cross either.
   */
  lemma AcceptedIdShape(pattern: string, s: string)
    requires ParsePattern(pattern).Ok? && IsMatch(ParsePattern(pattern).value, s)
    ensures |s| > 0 && s[0] == '@'
    ensures Count('@', s) == 1 && Count(':', s) == 1
  {
    var l, d := ParsedShape(pattern);
    AcceptedIdCounts(l, d, s);
  }

  /** Parts without wildcards compile to an expression that accepts `@l:d` and nothing else. */
  lemma CompiledExact(l: string, d: string, s: string)
    requires '*' !in l && '*' !in d
    ensures IsMatch(CompiledFrom(l, d), s) <==> s == "@" + l + ":" + d
  {
    TokenizeStarFree(l);
    TokenizeStarFree(d);
    if IsMatch(CompiledFrom(l, d), s) {
      var a, b := AcceptedIdSplit(l, d, s);
      LiteralsMatchExactly(l, a);
      LiteralsMatchExactly(d, b);
    }
    if s == "@" + l + ":" + d {
      LiteralsMatchExactly(l, l);
      LiteralsMatchExactly(d, d);
      AcceptedIdJoin(l, d, l, d);
    }
  }

  /** An id accepted through a localpart that begins with the literal text `w` begins with `@` and `w`. */
  lemma AcceptedLocalpartPrefix(l: string, d: string, w: string, rest: seq<Token>, s: string)
    requires Tokenize(l) == Literals(w) + rest
    ensures IsMatch(CompiledFrom(l, d), s) ==> |w| < |s| && s[1..|w| + 1] == w
  {
    if IsMatch(CompiledFrom(l, d), s) {
      var a, b := AcceptedIdSplit(l, d, s);
      MatchesLiteralPrefix(w, rest, a);
      assert s[1..|w| + 1] == a[..|w|];
    }
  }

  /** An id accepted through a domain that ends with the literal text `w` ends with `w`. */
  lemma AcceptedDomainSuffix(l: string, d: string, front: seq<Token>, w: string, s: string)
    requires Tokenize(d) == front + Literals(w)
    ensures IsMatch(CompiledFrom(l, d), s) ==> |w| <= |s| && s[|s| - |w|..] == w
  {
    if IsMatch(CompiledFrom(l, d), s) {
      var a, b := AcceptedIdSplit(l, d, s);
      MatchesLiteralSuffix(front, w, b);
      assert s[|s| - |w|..] == b[|b| - |w|..];
    }
  }

  /** A pattern without wildcards accepts its own text and nothing else. */
  lemma WildcardFreeExact(pattern: string, s: string)
    requires ParsePattern(pattern).Ok? && '*' !in pattern
    ensures IsMatch(ParsePattern(pattern).value, s) <==> s == pattern
  {
    var l, d := ParsedShape(pattern);
    TokenizeAppend("@" + l + ":", d);
    TokenizeAppend("@" + l, ":");
    TokenizeAppend("@", l);
    assert Tokenize("@") == [Lit('@')] && Tokenize(":") == [Lit(':')];
    assert CompiledFrom(l, d).tokens == Tokenize(pattern);
    TokenizeStarFree(pattern);
    LiteralsMatchExactly(pattern, s);
  }

  // ---------------------------------------------------------------------------
  // parse_patterns

  /**
   * What `parse_patterns` returns when each pattern is compiled by `compile`:
   * every pattern compiled, in input order, or the first failure.
   */
  function CompileAll(patterns: seq<string>, compile: string -> PatternResult<Regex>): PatternResult<seq<Regex>> {
    if patterns == [] then Ok([])
    else
      match compile(patterns[0])
      case Err(e) => Err(e)
      case Ok(re) =>
        match CompileAll(patterns[1..], compile)
        case Err(e) => Err(e)
        case Ok(rest) => Ok([re] + rest)
  }

  /** The batch succeeds exactly when every pattern compiles, and then holds their expressions in input order. */
  lemma {:induction false} CompileAllOk(patterns: seq<string>, compile: string -> PatternResult<Regex>)
    ensures CompileAll(patterns, compile).Ok? <==> forall i :: 0 <= i < |patterns| ==> compile(patterns[i]).Ok?
    ensures CompileAll(patterns, compile).Ok? ==>
      |CompileAll(patterns, compile).value| == |patterns| &&
      forall i :: 0 <= i < |patterns| ==> CompileAll(patterns, compile).value[i] == compile(patterns[i]).value
  {
    if patterns != [] {
      CompileAllOk(patterns[1..], compile);
      assert forall i :: 1 <= i < |patterns| ==> patterns[i] == patterns[1..][i - 1];
    }
  }

  /** A failing batch reports the error of its lowest-indexed invalid pattern. */
  lemma {:induction false} CompileAllFirstError(patterns: seq<string>, compile: string -> PatternResult<Regex>, k: nat)
    requires k < |patterns| && compile(patterns[k]).Err?
    requires forall j :: 0 <= j < k ==> compile(patterns[j]).Ok?
    ensures CompileAll(patterns, compile) == Err(compile(patterns[k]).error)
  {
    if k > 0 {
      assert patterns[1..][k - 1] == patterns[k];
      assert forall j :: 0 <= j < k - 1 ==> patterns[1..][j] == patterns[j + 1];
      CompileAllFirstError(patterns[1..], compile, k - 1);
    }
  }

  /** A batch whose every pattern compiles yields exactly those expressions, in order. */
  lemma {:induction false} CompileAllEach(patterns: seq<string>, compile: string -> PatternResult<Regex>, regexes: seq<Regex>)
    requires |regexes| == |patterns|
    requires forall j :: 0 <= j < |patterns| ==> compile(patterns[j]) == Ok(regexes[j])
    ensures CompileAll(patterns, compile) == Ok(regexes)
  {
    if patterns != [] {
      assert forall j :: 0 <= j < |patterns| - 1 ==> patterns[1..][j] == patterns[j + 1] && regexes[1..][j] == regexes[j + 1];
      CompileAllEach(patterns[1..], compile, regexes[1..]);
      assert [regexes[0]] + regexes[1..] == regexes;
    }
  }

  /**
   * The loop of `parse_patterns`, for any compiler of single patterns:
   * compiles the patterns in order and returns at the first error.
   */
  method CompileEach(patterns: seq<string>, compile: string -> PatternResult<Regex>) returns (r: PatternResult<seq<Regex>>)
    ensures r == CompileAll(patterns, compile)
  {
    var regexes: seq<Regex> := [];
    for i := 0 to |patterns|
      invariant |regexes| == i
      invariant forall j :: 0 <= j < i ==> compile(patterns[j]) == Ok(regexes[j])
    {
      var parsed := compile(patterns[i]);
      if parsed.Err? {
        CompileAllFirstError(patterns, compile, i);
        return Err(parsed.error);
      }
      regexes := regexes + [parsed.value];
    }
    CompileAllEach(patterns, compile, regexes);
    return Ok(regexes);
  }

  /** `parse_patterns` (and `parse_patterns_vector`, which only borrows its strings). */
  method ParsePatterns(patterns: seq<string>) returns (r: PatternResult<seq<Regex>>)
    ensures r == CompileAll(patterns, ParsePattern)
  {
    r := CompileEach(patterns, ParsePattern);
  }

  // ---------------------------------------------------------------------------
  // match_user_id

  /** Some expression of the allow-list matches the user id. */
  predicate Allowed(userId: string, allowed: seq<Regex>) {
    exists i :: 0 <= i < |allowed| && IsMatch(allowed[i], userId)
  }

  /** `match_user_id`: tries the expressions in order and stops at the first match. */
  method MatchUserId(userId: string, allowed: seq<Regex>) returns (b: bool)
    ensures b == Allowed(userId, allowed)
  {
    for i := 0 to |allowed|
      invariant forall j :: 0 <= j < i ==> !IsMatch(allowed[j], userId)
    {
      if IsMatch(allowed[i], userId) {
        return true;
      }
    }
    return false;
  }

  /** The order of the allow-list does not change the verdict. */
  lemma AllowedPermutation(userId: string, xs: seq<Regex>, ys: seq<Regex>)
    requires multiset(xs) == multiset(ys)
    ensures Allowed(userId, xs) == Allowed(userId, ys)
  {
    if Allowed(userId, xs) {
      var i :| 0 <= i < |xs| && IsMatch(xs[i], userId);
      assert xs[i] in multiset(ys);
    }
    if Allowed(userId, ys) {
      var i :| 0 <= i < |ys| && IsMatch(ys[i], userId);
      assert ys[i] in multiset(xs);
    }
  }
}
