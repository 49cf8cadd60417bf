/**
 * The cases of `src/tests.rs`, and the rejections described for
 * `parse_pattern`, stated as facts about the model.
 *
 * Longer strings are written as concatenations of short literals (the
 * domain `example.com` as `"example" + ".com"`); each is the same string
 * as the one-piece literal. Each computation on a literal sits in a lemma of
 * its own, and the rules are proved from those.
 *
 * The short lemmas without a doc comment that state a single character of an
 * id (`AnotherSecond`, `DashedFifth`, ...) or a regrouping of literals
 * (`BotStarText`) carry no meaning of their own: they keep each computation
 * on a literal out of the larger proofs, which stay small that way.
 */
module Examples {
  import opened Wrappers
  import opened Str
  import opened RegexModel
  import opened Mxidwc

  // ---------------------------------------------------------------------------
  // The parts used by the tests, translated and tokenized

  lemma TranslateSomeone()
    ensures Translate("someone") == "someone"
  {
    TranslatePlain("someone");
  }

  lemma TranslateExample()
    ensures Translate("example") == "example"
  {
    TranslatePlain("example");
  }

  lemma TranslateBot()
    ensures Translate("bot") == "bot"
  {
    TranslatePlain("bot");
  }

  lemma TranslateDotCom()
    ensures Translate(".com") == "\\.com"
  {
    assert ".com" == "." + "com";
    TranslateAppend(".", "com");
    TranslateChar('.');
    TranslatePlain("com");
  }

  /** The literal `.` of `example.com` is escaped. */
  lemma TranslateExampleCom()
    ensures Translate("example" + ".com") == "example" + "\\.com"
  {
    TranslateAppend("example", ".com");
    TranslateExample();
    TranslateDotCom();
  }

  lemma BotStarText()
    ensures "bot.*" == "bot" + "." + "*"
    ensures "bot\\.([^:@]*)" == "bot" + "\\." + "([^:@]*)"
  {
  }

  lemma TranslateBotDot()
    ensures Translate("bot" + ".") == "bot" + "\\."
  {
    TranslateAppend("bot", ".");
    TranslateBot();
    TranslateChar('.');
  }

  /** The wildcard of `bot.*` becomes the group `([^:@]*)`. */
  lemma TranslateBotStar()
    ensures Translate("bot.*") == "bot\\.([^:@]*)"
  {
    BotStarText();
    TranslateAppend("bot" + ".", "*");
    TranslateBotDot();
    TranslateChar('*');
  }

  lemma TranslateStarCom()
    ensures Translate("*.com") == "([^:@]*)\\.com"
  {
    assert "*.com" == "*" + ".com";
    TranslateAppend("*", ".com");
    TranslateChar('*');
    TranslateDotCom();
  }

  lemma TokenizeBotStar()
    ensures Tokenize("bot.*") == Literals("bot.") + [Star]
  {
    assert "bot.*" == "bot." + "*";
    TokenizeAppend("bot.", "*");
    TokenizeStarFree("bot.");
  }

  lemma TokenizeStarCom()
    ensures Tokenize("*.com") == [Star] + Literals(".com")
  {
    assert "*.com" == "*" + ".com";
    TokenizeAppend("*", ".com");
    TokenizeStarFree(".com");
  }

  lemma TokenizeExampleCom()
    ensures Tokenize("example" + ".com") == Literals("example" + ".com")
  {
    TokenizeStarFree("example" + ".com");
  }

  // ---------------------------------------------------------------------------
  // Matching a wildcard part

  /** A localpart `w*` matches `w` followed by any text free of separators. */
  lemma LiteralsThenStar(w: string, x: string)
    requires forall k :: 0 <= k < |x| ==> !IsSeparator(x[k])
    ensures Matches(Literals(w) + [Star], w + x)
  {
    LiteralsMatchExactly(w, w);
    StarMatchesExactly(x);
    MatchesAppend(Literals(w), [Star], w, x);
  }

  /** A domain `*w` matches any text free of separators followed by `w`. */
  lemma StarThenLiterals(x: string, w: string)
    requires forall k :: 0 <= k < |x| ==> !IsSeparator(x[k])
    ensures Matches([Star] + Literals(w), x + w)
  {
    LiteralsMatchExactly(w, w);
    StarMatchesExactly(x);
    MatchesAppend([Star], Literals(w), x, w);
  }

  lemma ExampleComMatchesItself()
    ensures Matches(Tokenize("example" + ".com"), "example" + ".com")
  {
    TokenizeExampleCom();
    LiteralsMatchExactly("example" + ".com", "example" + ".com");
  }

  // ---------------------------------------------------------------------------
  // The path every test case takes: `parse_patterns_vector`, then `match_user_id`

  /** A one-pattern batch whose pattern compiles. */
  lemma CompileAllOne(a: string, compile: string -> PatternResult<Regex>)
    requires compile(a).Ok?
    ensures CompileAll([a], compile) == Ok([compile(a).value])
  {
    assert [a][0] == a && [a][1..] == [];
    assert CompileAll([], compile) == Ok([]);
    assert [compile(a).value] + [] == [compile(a).value];
  }

  /** A one-expression allow-list allows exactly what its expression matches. */
  lemma AllowedByOne(s: string, x: Regex)
    ensures Allowed(s, [x]) <==> IsMatch(x, s)
  {
    assert [x][0] == x;
  }

  // ---------------------------------------------------------------------------
  // Single rule: direct match (src/tests.rs:11-24)

  lemma DirectRuleCompiles()
    ensures ParsePattern("@" + "someone" + ":" + ("example" + ".com")) ==
      Ok(CompiledFrom("someone", "example" + ".com"))
    ensures CompiledFrom("someone", "example" + ".com").text ==
      "^@" + "someone" + ":" + ("example" + "\\.com") + "$"
  {
    ParseComposed("someone", "example" + ".com");
    TranslateSomeone();
    TranslateExampleCom();
  }

  lemma DirectRuleAccepts()
    ensures IsMatch(CompiledFrom("someone", "example" + ".com"), "@" + "someone" + ":" + ("example" + ".com"))
  {
    CompiledExact("someone", "example" + ".com", "@" + "someone" + ":" + ("example" + ".com"));
  }

  lemma AnotherSecond()
    ensures ("@" + "another" + ":" + ("example" + ".com"))[1] == 'a'
  {
  }

  lemma SomeoneSecond()
    ensures ("@" + "someone" + ":" + ("example" + ".com"))[1] == 's'
  {
  }

  lemma DirectRuleRejectsAnother()
    ensures !IsMatch(CompiledFrom("someone", "example" + ".com"), "@" + "another" + ":" + ("example" + ".com"))
  {
    CompiledExact("someone", "example" + ".com", "@" + "another" + ":" + ("example" + ".com"));
    AnotherSecond();
    SomeoneSecond();
  }

  lemma XcomSeventeenth()
    ensures ("@" + "someone" + ":" + ("example" + "Xcom"))[16] == 'X'
  {
  }

  lemma DotcomSeventeenth()
    ensures ("@" + "someone" + ":" + ("example" + ".com"))[16] == '.'
  {
  }

  /** The `.` of the domain is escaped, so it stands for itself only. */
  lemma DirectRuleRejectsXcom()
    ensures !IsMatch(CompiledFrom("someone", "example" + ".com"), "@" + "someone" + ":" + ("example" + "Xcom"))
  {
    CompiledExact("someone", "example" + ".com", "@" + "someone" + ":" + ("example" + "Xcom"));
    XcomSeventeenth();
    DotcomSeventeenth();
  }

  /** The two direct-match cases, through the batch compiler and the allow-list. */
  lemma DirectRuleCase()
    ensures CompileAll(["@" + "someone" + ":" + ("example" + ".com")], ParsePattern) ==
      Ok([CompiledFrom("someone", "example" + ".com")])
    ensures var allowed := [CompiledFrom("someone", "example" + ".com")];
      && Allowed("@" + "someone" + ":" + ("example" + ".com"), allowed)
      && !Allowed("@" + "another" + ":" + ("example" + ".com"), allowed)
  {
    DirectRuleCompiles();
    CompileAllOne("@" + "someone" + ":" + ("example" + ".com"), ParsePattern);
    DirectRuleAccepts();
    DirectRuleRejectsAnother();
    AllowedByOne("@" + "someone" + ":" + ("example" + ".com"), CompiledFrom("someone", "example" + ".com"));
    AllowedByOne("@" + "another" + ":" + ("example" + ".com"), CompiledFrom("someone", "example" + ".com"));
  }

  // ---------------------------------------------------------------------------
  // Single rule: localpart wildcard (src/tests.rs:25-43)

  lemma BotStarRuleCompiles()
    ensures ParsePattern("@" + "bot.*" + ":" + ("example" + ".com")) ==
      Ok(CompiledFrom("bot.*", "example" + ".com"))
    ensures CompiledFrom("bot.*", "example" + ".com").text ==
      "^@" + "bot\\.([^:@]*)" + ":" + ("example" + "\\.com") + "$"
  {
    ParseComposed("bot.*", "example" + ".com");
    TranslateBotStar();
    TranslateExampleCom();
  }

  lemma BotStarMatches(x: string)
    requires forall k :: 0 <= k < |x| ==> !IsSeparator(x[k])
    ensures Matches(Tokenize("bot.*"), "bot." + x)
  {
    TokenizeBotStar();
    LiteralsThenStar("bot.", x);
  }

  lemma BotStarRuleAccepts()
    ensures IsMatch(CompiledFrom("bot.*", "example" + ".com"), "@" + ("bot." + "one") + ":" + ("example" + ".com"))
    ensures IsMatch(CompiledFrom("bot.*", "example" + ".com"), "@" + ("bot." + "two") + ":" + ("example" + ".com"))
  {
    BotStarMatches("one");
    BotStarMatches("two");
    ExampleComMatchesItself();
    AcceptedIdJoin("bot.*", "example" + ".com", "bot." + "one", "example" + ".com");
    AcceptedIdJoin("bot.*", "example" + ".com", "bot." + "two", "example" + ".com");
  }

  lemma BotStarRuleRejectsAnother()
    ensures !IsMatch(CompiledFrom("bot.*", "example" + ".com"), "@" + "another" + ":" + ("example" + ".com"))
  {
    TokenizeBotStar();
    AcceptedLocalpartPrefix("bot.*", "example" + ".com", "bot.", [Star], "@" + "another" + ":" + ("example" + ".com"));
    AnotherSecond();
  }

  /** The three localpart-wildcard cases, through the batch compiler and the allow-list. */
  lemma BotStarRuleCase()
    ensures CompileAll(["@" + "bot.*" + ":" + ("example" + ".com")], ParsePattern) ==
      Ok([CompiledFrom("bot.*", "example" + ".com")])
    ensures var allowed := [CompiledFrom("bot.*", "example" + ".com")];
      && Allowed("@" + ("bot." + "one") + ":" + ("example" + ".com"), allowed)
      && Allowed("@" + ("bot." + "two") + ":" + ("example" + ".com"), allowed)
      && !Allowed("@" + "another" + ":" + ("example" + ".com"), allowed)
  {
    BotStarRuleCompiles();
    CompileAllOne("@" + "bot.*" + ":" + ("example" + ".com"), ParsePattern);
    BotStarRuleAccepts();
    BotStarRuleRejectsAnother();
    AllowedByOne("@" + ("bot." + "one") + ":" + ("example" + ".com"), CompiledFrom("bot.*", "example" + ".com"));
    AllowedByOne("@" + ("bot." + "two") + ":" + ("example" + ".com"), CompiledFrom("bot.*", "example" + ".com"));
    AllowedByOne("@" + "another" + ":" + ("example" + ".com"), CompiledFrom("bot.*", "example" + ".com"));
  }

  /** An id accepted by a rule with separator-free parts holds one `:`. */
  lemma AcceptedOneColon(l: string, d: string, s: string)
    requires '@' !in l && ':' !in l && '@' !in d && ':' !in d
    ensures IsMatch(CompiledFrom(l, d), s) ==> Count(':', s) == 1
  {
    if IsMatch(CompiledFrom(l, d), s) {
      AcceptedIdCounts(l, d, s);
    }
  }

  lemma TwoColons()
    ensures Count(':', "@" + "bot.a" + ":" + "b" + ":" + ("example" + ".com")) == 2
  {
    var tail := "example" + ".com";
    assert ':' !in tail;
    CountAppend(':', "@" + "bot.a" + ":" + "b" + ":", tail);
    CountAppend(':', "@" + "bot.a" + ":" + "b", ":");
    CountAppend(':', "@" + "bot.a" + ":", "b");
    CountAppend(':', "@" + "bot.a", ":");
    CountAppend(':', "@", "bot.a");
  }

  /** The wildcard cannot cover a `:`, so a second `:` is never accepted. */
  lemma BotStarRuleRejectsSecondColon()
    ensures !IsMatch(CompiledFrom("bot.*", "example" + ".com"), "@" + "bot.a" + ":" + "b" + ":" + ("example" + ".com"))
  {
    AcceptedOneColon("bot.*", "example" + ".com", "@" + "bot.a" + ":" + "b" + ":" + ("example" + ".com"));
    TwoColons();
  }

  // ---------------------------------------------------------------------------
  // Single rule: domain wildcard (src/tests.rs:44-62)

  lemma BotDomainStarRuleCompiles()
    ensures ParsePattern("@" + "bot" + ":" + "*.com") == Ok(CompiledFrom("bot", "*.com"))
    ensures CompiledFrom("bot", "*.com").text == "^@" + "bot" + ":" + "([^:@]*)\\.com" + "$"
  {
    ParseComposed("bot", "*.com");
    TranslateBot();
    TranslateStarCom();
  }

  lemma StarComMatches(x: string)
    requires forall k :: 0 <= k < |x| ==> !IsSeparator(x[k])
    ensures Matches(Tokenize("*.com"), x + ".com")
  {
    TokenizeStarCom();
    StarThenLiterals(x, ".com");
  }

  lemma BotMatchesItself()
    ensures Matches(Tokenize("bot"), "bot")
  {
    TokenizeStarFree("bot");
    LiteralsMatchExactly("bot", "bot");
  }

  lemma BotDomainStarRuleAccepts()
    ensures IsMatch(CompiledFrom("bot", "*.com"), "@" + "bot" + ":" + ("example" + ".com"))
    ensures IsMatch(CompiledFrom("bot", "*.com"), "@" + "bot" + ":" + ("another" + ".com"))
  {
    BotMatchesItself();
    StarComMatches("example");
    StarComMatches("another");
    AcceptedIdJoin("bot", "*.com", "bot", "example" + ".com");
    AcceptedIdJoin("bot", "*.com", "bot", "another" + ".com");
  }

  lemma AnotherOrgLast()
    ensures var s := "@" + "bot" + ":" + ("another" + ".org"); |s| > 0 && s[|s| - 1] == 'g'
  {
  }

  lemma BotDomainStarRuleRejectsOrg()
    ensures !IsMatch(CompiledFrom("bot", "*.com"), "@" + "bot" + ":" + ("another" + ".org"))
  {
    TokenizeStarCom();
    AcceptedDomainSuffix("bot", "*.com", [Star], ".com", "@" + "bot" + ":" + ("another" + ".org"));
    AnotherOrgLast();
  }

  /** The three domain-wildcard cases, through the batch compiler and the allow-list. */
  lemma BotDomainStarRuleCase()
    ensures CompileAll(["@" + "bot" + ":" + "*.com"], ParsePattern) == Ok([CompiledFrom("bot", "*.com")])
    ensures var allowed := [CompiledFrom("bot", "*.com")];
      && Allowed("@" + "bot" + ":" + ("example" + ".com"), allowed)
      && Allowed("@" + "bot" + ":" + ("another" + ".com"), allowed)
      && !Allowed("@" + "bot" + ":" + ("another" + ".org"), allowed)
  {
    BotDomainStarRuleCompiles();
    CompileAllOne("@" + "bot" + ":" + "*.com", ParsePattern);
    BotDomainStarRuleAccepts();
    BotDomainStarRuleRejectsOrg();
    AllowedByOne("@" + "bot" + ":" + ("example" + ".com"), CompiledFrom("bot", "*.com"));
    AllowedByOne("@" + "bot" + ":" + ("another" + ".com"), CompiledFrom("bot", "*.com"));
    AllowedByOne("@" + "bot" + ":" + ("another" + ".org"), CompiledFrom("bot", "*.com"));
  }

  // ---------------------------------------------------------------------------
  // Multi rule: `@bot.*:*.com` and `@someone:example.com` (src/tests.rs:63-99)

  lemma BothStarRuleCompiles()
    ensures ParsePattern("@" + "bot.*" + ":" + "*.com") == Ok(CompiledFrom("bot.*", "*.com"))
    ensures CompiledFrom("bot.*", "*.com").text == "^@" + "bot\\.([^:@]*)" + ":" + "([^:@]*)\\.com" + "$"
  {
    ParseComposed("bot.*", "*.com");
    TranslateBotStar();
    TranslateStarCom();
  }

  /** A two-pattern batch whose patterns both compile. */
  lemma CompileAllTwo(a: string, b: string, compile: string -> PatternResult<Regex>)
    requires compile(a).Ok? && compile(b).Ok?
    ensures CompileAll([a, b], compile) == Ok([compile(a).value, compile(b).value])
  {
    CompileAllOk([a, b], compile);
    assert [a, b][0] == a && [a, b][1] == b;
    var v := CompileAll([a, b], compile).value;
    assert |v| == 2 && v[0] == compile(a).value && v[1] == compile(b).value;
    assert v == [compile(a).value, compile(b).value];
  }

  /** Both rules compile, in order. */
  lemma MultiRuleCompiles()
    ensures CompileAll(["@" + "bot.*" + ":" + "*.com", "@" + "someone" + ":" + ("example" + ".com")], ParsePattern) ==
      Ok([CompiledFrom("bot.*", "*.com"), CompiledFrom("someone", "example" + ".com")])
  {
    BothStarRuleCompiles();
    DirectRuleCompiles();
    CompileAllTwo("@" + "bot.*" + ":" + "*.com", "@" + "someone" + ":" + ("example" + ".com"), ParsePattern);
  }

  lemma AllowedByTwo(s: string, x: Regex, y: Regex)
    ensures Allowed(s, [x, y]) <==> IsMatch(x, s) || IsMatch(y, s)
  {
    assert [x, y][0] == x && [x, y][1] == y;
  }

  lemma BothStarRuleAcceptsBotOne()
    ensures IsMatch(CompiledFrom("bot.*", "*.com"), "@" + ("bot." + "one") + ":" + ("example" + ".com"))
  {
    BotStarMatches("one");
    StarComMatches("example");
    AcceptedIdJoin("bot.*", "*.com", "bot." + "one", "example" + ".com");
  }

  lemma MultiRuleAccepts()
    ensures var allowed := [CompiledFrom("bot.*", "*.com"), CompiledFrom("someone", "example" + ".com")];
      && Allowed("@" + ("bot." + "one") + ":" + ("example" + ".com"), allowed)
      && Allowed("@" + "someone" + ":" + ("example" + ".com"), allowed)
  {
    BothStarRuleAcceptsBotOne();
    DirectRuleAccepts();
    AllowedByTwo("@" + ("bot." + "one") + ":" + ("example" + ".com"),
      CompiledFrom("bot.*", "*.com"), CompiledFrom("someone", "example" + ".com"));
    AllowedByTwo("@" + "someone" + ":" + ("example" + ".com"),
      CompiledFrom("bot.*", "*.com"), CompiledFrom("someone", "example" + ".com"));
  }

  lemma DashedFifth()
    ensures ("@" + "bot-dashed" + ":" + ("example" + ".com"))[4] == '-'
  {
  }

  lemma DashedSecond()
    ensures ("@" + "bot-dashed" + ":" + ("example" + ".com"))[1] == 'b'
  {
  }

  lemma BothStarRuleRejectsDashed()
    ensures !IsMatch(CompiledFrom("bot.*", "*.com"), "@" + "bot-dashed" + ":" + ("example" + ".com"))
  {
    TokenizeBotStar();
    AcceptedLocalpartPrefix("bot.*", "*.com", "bot.", [Star], "@" + "bot-dashed" + ":" + ("example" + ".com"));
    DashedFifth();
  }

  lemma DirectRuleRejectsDashed()
    ensures !IsMatch(CompiledFrom("someone", "example" + ".com"), "@" + "bot-dashed" + ":" + ("example" + ".com"))
  {
    CompiledExact("someone", "example" + ".com", "@" + "bot-dashed" + ":" + ("example" + ".com"));
    DashedSecond();
    SomeoneSecond();
  }

  lemma BothStarRuleRejectsAnother()
    ensures !IsMatch(CompiledFrom("bot.*", "*.com"), "@" + "another" + ":" + ("example" + ".com"))
  {
    TokenizeBotStar();
    AcceptedLocalpartPrefix("bot.*", "*.com", "bot.", [Star], "@" + "another" + ":" + ("example" + ".com"));
    AnotherSecond();
  }

  lemma MultiRuleRejects()
    ensures var allowed := [CompiledFrom("bot.*", "*.com"), CompiledFrom("someone", "example" + ".com")];
      && !Allowed("@" + "bot-dashed" + ":" + ("example" + ".com"), allowed)
      && !Allowed("@" + "another" + ":" + ("example" + ".com"), allowed)
  {
    BothStarRuleRejectsDashed();
    DirectRuleRejectsDashed();
    BothStarRuleRejectsAnother();
    DirectRuleRejectsAnother();
    AllowedByTwo("@" + "bot-dashed" + ":" + ("example" + ".com"),
      CompiledFrom("bot.*", "*.com"), CompiledFrom("someone", "example" + ".com"));
    AllowedByTwo("@" + "another" + ":" + ("example" + ".com"),
      CompiledFrom("bot.*", "*.com"), CompiledFrom("someone", "example" + ".com"));
  }

  // ---------------------------------------------------------------------------
  // Rejected patterns, one per error of `parse_pattern`

  lemma NotFullyQualifiedExample()
    ensures ParsePattern("someone:example.com") == Err(InvalidPattern(NotFullyQualified))
  {
  }

  lemma MoreThanOneAtExample()
    ensures ParsePattern("@a@b:c") == Err(InvalidPattern(MoreThanOneAt))
  {
  }

  lemma NoDomainExample()
    ensures ParsePattern("@local") == Err(InvalidPattern(NotTwoParts))
  {
  }

  lemma ThreePartsExample()
    ensures ParsePattern("@a:b:c") == Err(InvalidPattern(NotTwoParts))
  {
  }

  /** `@l:` has an empty domain. */
  lemma RejectsEmptyDomain(l: string)
    requires '@' !in l && ':' !in l
    ensures ParsePattern("@" + l + ":") == Err(InvalidPattern(EmptyPart))
  {
    var pattern := "@" + l + ":";
    assert pattern[1..] == l + [':'] + [];
    SplitAtOnly(l, [], ':');
  }

  /** `@:d` has an empty localpart. */
  lemma RejectsEmptyLocalpart(d: string)
    requires '@' !in d && ':' !in d
    ensures ParsePattern("@" + ":" + d) == Err(InvalidPattern(EmptyPart))
  {
    var pattern := "@" + ":" + d;
    assert pattern[1..] == [] + [':'] + d;
    SplitAtOnly([], d, ':');
  }

  lemma EmptyLocalpartExample()
    ensures ParsePattern("@" + ":" + "domain") == Err(InvalidPattern(EmptyPart))
  {
    RejectsEmptyLocalpart("domain");
  }

  lemma EmptyDomainExample()
    ensures ParsePattern("@" + "local" + ":") == Err(InvalidPattern(EmptyPart))
  {
    RejectsEmptyDomain("local");
  }
}
