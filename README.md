# mxidwc: Matrix user-id wildcard patterns, modelled in Dafny

mxidwc turns an allow-list of Matrix user-id patterns into regular expressions
and decides whether a user id is allowed. A pattern has the shape
`@localpart:domain`. A `*` in either part is a wildcard for any run of
characters that holds no `:` and no `@`. Every other character stands for
itself. The library offers three public operations, built on one private helper:

- `parse_pattern` validates one pattern and compiles it to `^@<localpart>:<domain>$`;
- `parse_patterns` / `parse_patterns_vector` compile a list and stop at the first invalid pattern;
- `match_user_id` allows an id when some compiled expression matches it;
- the private helper `get_pattern` translates one part of a pattern character by character.

The project has five modules:

- `Wrappers` (`wrappers.dfy`): the `Option` and `Result` types.
- `Str` (`str.dfy`): the string operations the library relies on. These are counting a character, `split` on a separator, and joining pieces back together.
- `RegexModel` (`regex_model.dfy`): the part of the `regex` crate the library uses, restricted to the expressions it can emit. A compiled expression is a sequence of tokens, each either a literal character or the wildcard `([^:@]*)`:
  - `Escape` is `regex::escape` on one character;
  - `Render` writes tokens as regex text and `Lex` reads such text back;
  - `New` plays `Regex::new` on `^` + body + `$`;
  - `IsMatch` plays `is_match` on the anchored expression, which is a whole-string match.
- `Mxidwc` (`lib.dfy`): the library itself. `parse_pattern` is a function. `get_pattern`, the loop of `parse_patterns` and `match_user_id` are methods with loops, each proved against a specification function.
- `Examples` (`tests.dfy`): every case of the crate's test table. Each case's rules, expected regex texts and expected verdict are stated as lemmas.

## Model

| member | source | states |
|---|---|---|
| Mxidwc.GetPattern | src/lib.rs:93-110 | The loop computes `SegmentPattern`, the function `ParsePattern` uses for each part. An empty part is rejected with "rejecting empty part". Otherwise the result is the part's translation, with `([^:@]*)` for each `*` and the escaped character for every other character, in order. |
| Mxidwc.TranslateChar | src/lib.rs:102-106 | One character translates to the wildcard text when it is `*` and to its escape otherwise. |
| Mxidwc.TranslateAppend | src/lib.rs:100-107 | The translation of a concatenation is the concatenation of the translations, which is what the loop's appending relies on. |
| Mxidwc.TranslatePlain | src/lib.rs:105 | A part made of characters that are neither `*` nor regex meta characters translates to itself. |
| Mxidwc.TokenizeStarFree | src/lib.rs:101-106 | A part without `*` compiles to one literal token per character. |
| Mxidwc.TokenizeAppend | src/lib.rs:100-107 | The tokens of a concatenation are the concatenated tokens. |
| Mxidwc.TokenizeAt | src/lib.rs:101-106 | Position by position, the token is `Star` exactly where the part has `*`, and otherwise the literal of that character. |
| Mxidwc.ParsePatternErrors | src/lib.rs:59-84 | Each check of `parse_pattern`, in the order it runs, with its exact message: missing leading `@`, a second `@`, not exactly one `:`, and an empty part (from src/lib.rs:94-98). |
| Mxidwc.ParseSucceedsIff | src/lib.rs:59-91 | A pattern compiles if and only if it is well formed: a leading `@`, no other `@`, exactly one `:`, and non-empty parts on both sides. Every failure is an `InvalidPattern`, so in the model the `RegexError` branch at src/lib.rs:88 never fires. |
| Mxidwc.ParsedWellFormed | src/lib.rs:59-91 | A pattern that compiles is well formed. |
| Mxidwc.WellFormedParses | src/lib.rs:59-91 | A well-formed pattern compiles. |
| Mxidwc.ParsedShape | src/lib.rs:73-88 | A pattern that compiles is `@l:d` with non-empty, separator-free `l` and `d`, and it compiles to the expression built from those parts. |
| Mxidwc.ParseComposed | src/lib.rs:59-91 | `@l:d` with non-empty parts free of `@` and `:` compiles to the expression built from `l` and `d`. |
| Mxidwc.SplitPattern | src/lib.rs:66-84 | When the text after `@` splits into exactly two pieces, the pattern is `@` + first + `:` + second, and neither piece holds `:`. |
| Mxidwc.ComposedWellFormed | src/lib.rs:59-84 | `@l:d` with non-empty parts free of separators passes every validation check. |
| Mxidwc.RenderCompiled | src/lib.rs:86 | The text of a compiled pattern is `^` + the rendering of its tokens + `$`, so the formatted string and the token sequence agree. |
| Mxidwc.RenderAround | src/lib.rs:86 | The literals `@` and `:` render as themselves between the two parts' texts. |
| RegexModel.LexRender | src/lib.rs:86-88 | Reading back the text of any token sequence gives exactly those tokens, so every formatted pattern is valid regex syntax. |
| RegexModel.LexSound | src/lib.rs:88 | Whatever text `Lex` accepts is the rendering of the tokens it returns. |
| RegexModel.NewRender | src/lib.rs:86-88 | `Regex::new` on an anchored rendering succeeds and keeps those tokens. |
| RegexModel.NewSound | src/lib.rs:88 | An expression that compiles has as its text the anchored rendering of its tokens. |
| RegexModel.LexFragment | src/lib.rs:103-105 | Reading back one fragment followed by more text yields that token first. |
| RegexModel.RenderAppend | src/lib.rs:100-107 | Rendering distributes over concatenation of token sequences. |
| RegexModel.MatchesAppend | src/lib.rs:86 | Two matches side by side match the concatenated tokens. |
| RegexModel.MatchesSplit | src/lib.rs:86 | A match of concatenated tokens splits the input into a match of each half. |
| RegexModel.MatchesAround | src/lib.rs:86 | A match of `@`, a localpart, `:` and a domain is `@a:b` with `a` matched by the localpart and `b` by the domain. |
| RegexModel.MatchesAroundJoin | src/lib.rs:86 | The converse of `MatchesAround`. |
| RegexModel.MatchesSeparatorFree | src/lib.rs:103 | Tokens without literal separators only match text without `:` and `@`. |
| RegexModel.LiteralsMatchExactly | src/lib.rs:105 | Escaped literals match exactly their own characters. |
| RegexModel.StarMatchesExactly | src/lib.rs:103 | The wildcard matches exactly the strings free of `:` and `@`. |
| RegexModel.MatchesLiteralPrefix | src/lib.rs:105 | Tokens that begin with literals only match text beginning with those characters. |
| RegexModel.MatchesLiteralSuffix | src/lib.rs:105 | Tokens that end with literals only match text ending with those characters. |
| Mxidwc.TokenizeSeparatorFree | src/lib.rs:66-78 | A part that holds no `@` or `:` yields tokens with no literal separator. |
| Mxidwc.AcceptedIdSplit | src/lib.rs:86 | An id accepted by a compiled pattern is `@a:b` where the localpart matches `a` and the domain matches `b`. |
| Mxidwc.AcceptedIdJoin | src/lib.rs:86 | Conversely, `@a:b` is accepted when the localpart matches `a` and the domain matches `b`. |
| Mxidwc.AcceptedIdCounts | src/lib.rs:66-78 | With separator-free parts, an accepted id starts with `@` and holds exactly one `@` and exactly one `:`. |
| Mxidwc.IdCounts | src/lib.rs:86 | `@a:b` with separator-free `a` and `b` holds one `@` and one `:`. |
| Mxidwc.AcceptedIdShape | src/lib.rs:59-107 | Any id accepted by a compiled pattern starts with `@` and holds exactly one `@` and one `:`. A wildcard can never reach across a separator. |
| Mxidwc.CompiledExact | src/lib.rs:86-105 | Parts without wildcards give an expression that accepts `@l:d` and nothing else. Escaping makes `.` and the other meta characters literal. |
| Mxidwc.WildcardFreeExact | src/lib.rs:59-105 | A pattern without `*` that compiles accepts exactly its own text. |
| Mxidwc.AcceptedLocalpartPrefix | src/lib.rs:86-105 | When the localpart begins with literal text `w`, every accepted id has `w` right after its `@`. |
| Mxidwc.AcceptedDomainSuffix | src/lib.rs:86-105 | When the domain ends with literal text `w`, every accepted id ends with `w`. |
| Mxidwc.CompileAllOk | src/lib.rs:47-56 | A batch compiles exactly when every pattern compiles, and then holds their expressions in input order, one per pattern. |
| Mxidwc.CompileAllFirstError | src/lib.rs:50-53 | A failing batch reports the error of its first invalid pattern. |
| Mxidwc.CompileAllEach | src/lib.rs:47-56 | A batch whose every pattern compiles yields exactly those expressions, in order. |
| Mxidwc.CompileEach | src/lib.rs:47-56 | The loop compiles the patterns in order and returns the first error, or all the expressions. |
| Mxidwc.ParsePatterns | src/lib.rs:41-56 | `parse_patterns` and `parse_patterns_vector` return the batch result of `parse_pattern` over the list. |
| Mxidwc.MatchUserId | src/lib.rs:32-39 | True exactly when some expression in the list matches the id. |
| Mxidwc.AllowedPermutation | src/lib.rs:32-39 | The order of the allow-list does not change the verdict. |
| Str.Count | src/lib.rs:67 | A character's count is at most the length, and zero exactly when the character is absent. |
| Str.CountAppend | src/lib.rs:73 | Counts add up over concatenation. |
| Str.SplitCount | src/lib.rs:73-74 | `split` yields one more piece than there are separators, so "exactly 2 parts" means exactly one `:`. |
| Str.SplitPiecesFree | src/lib.rs:73 | No piece of a split holds the separator. |
| Str.SplitJoin | src/lib.rs:73 | Joining the pieces with the separator gives back the input. |
| Str.SplitTwo | src/lib.rs:73-84 | A two-piece split is `x` + separator + `y` with the separator in neither piece. |
| Str.SplitAtOnly | src/lib.rs:73 | `x` + separator + `y`, where neither piece holds the separator, splits into `[x, y]`. |
| Str.CutUnique | src/lib.rs:73 | Cutting at the first separator is unique. |
| Str.JoinTwo | src/lib.rs:73 | Two pieces join as first + separator + second. |
| Examples.DirectRuleCompiles | src/tests.rs:11-24 | `@someone:example.com` compiles to `^@someone:example\.com$`. |
| Examples.DirectRuleAccepts | src/tests.rs:11-17 | The direct rule allows `@someone:example.com`. |
| Examples.DirectRuleRejectsAnother | src/tests.rs:18-24 | The direct rule refuses `@another:example.com`. |
| Examples.DirectRuleCase | src/tests.rs:11-24 | Through the batch compiler and the allow-list, as the test loop at src/tests.rs:102-111 runs them: the rule compiles to one expression, allows `@someone:example.com` and refuses `@another:example.com`. |
| Examples.DirectRuleRejectsXcom | src/lib.rs:105 | The escaped `.` refuses `@someone:exampleXcom`. |
| Examples.BotStarRuleCompiles | src/tests.rs:25-43 | `@bot.*:example.com` compiles to `^@bot\.([^:@]*):example\.com$`. |
| Examples.BotStarRuleAccepts | src/tests.rs:26-37 | The localpart wildcard allows `@bot.one:example.com` and `@bot.two:example.com`. |
| Examples.BotStarRuleRejectsAnother | src/tests.rs:38-43 | The localpart wildcard refuses `@another:example.com`. |
| Examples.BotStarRuleCase | src/tests.rs:25-43 | Through the batch compiler and the allow-list: the rule compiles to one expression, allows `@bot.one:example.com` and `@bot.two:example.com`, and refuses `@another:example.com`. |
| Examples.BotStarRuleRejectsSecondColon | src/lib.rs:103 | The localpart wildcard refuses `@bot.a:b:example.com`, because a wildcard never covers a `:`. |
| Examples.BotDomainStarRuleCompiles | src/tests.rs:44-62 | `@bot:*.com` compiles to `^@bot:([^:@]*)\.com$`. |
| Examples.BotDomainStarRuleAccepts | src/tests.rs:45-56 | The domain wildcard allows `@bot:example.com` and `@bot:another.com`. |
| Examples.BotDomainStarRuleRejectsOrg | src/tests.rs:57-62 | The domain wildcard refuses `@bot:another.org`. |
| Examples.BotDomainStarRuleCase | src/tests.rs:44-62 | Through the batch compiler and the allow-list: the rule compiles to one expression, allows `@bot:example.com` and `@bot:another.com`, and refuses `@bot:another.org`. |
| Examples.BothStarRuleCompiles | src/tests.rs:64-69 | `@bot.*:*.com` compiles to `^@bot\.([^:@]*):([^:@]*)\.com$`. |
| Examples.MultiRuleCompiles | src/tests.rs:63-99 | The two-rule list compiles to both expressions, in order. |
| Examples.MultiRuleAccepts | src/tests.rs:64-81 | The two-rule list allows `@bot.one:example.com` and `@someone:example.com`. |
| Examples.MultiRuleRejects | src/tests.rs:82-99 | The two-rule list refuses `@bot-dashed:example.com` and `@another:example.com`. |
| Examples.NotFullyQualifiedExample | src/lib.rs:60-64 | `someone:example.com` is refused as not fully qualified. |
| Examples.MoreThanOneAtExample | src/lib.rs:66-71 | `@a@b:c` is refused for its second `@`. |
| Examples.NoDomainExample | src/lib.rs:73-78 | `@local` is refused for not having two parts. |
| Examples.ThreePartsExample | src/lib.rs:73-78 | `@a:b:c` is refused for not having two parts. |
| Examples.RejectsEmptyDomain | src/lib.rs:83-84 | `@l:` is refused for its empty domain. |
| Examples.RejectsEmptyLocalpart | src/lib.rs:80-81 | `@:d` is refused for its empty localpart. |

## Left out

- The `regex` crate is modelled only on the expressions the compiler emits: escaped literals and the wildcard group. `New` refuses any other syntax. Compilation limits and automata are not modelled, and neither are capture groups, since only `is_match` is used.
- `IsMatch` is a whole-string match on the tokens. This is what `is_match` means for an expression anchored by `^` and `$`. The model does not treat `^` and `$` as general anchors.
- The `Display` and `Error` impls of `PatternError` (src/lib.rs:12-21) are formatting only and are not modelled.
- `From<regex::Error>` (src/lib.rs:23-27) is kept only as the `RegexError` variant, whose cause is the refused text. `ParseSucceedsIff` shows that the model never produces this variant.
- Size-limit failures of `Regex::new` are not modelled. In the crate, a well-formed pattern long enough (thousands of `*`, each a Unicode class) fails with `CompiledTooBig` at src/lib.rs:88. `WellFormedParses`, `ParsedShape` and `ParseSucceedsIff` therefore describe the model, where every well-formed pattern compiles; the real program can still return `RegexError` for such a pattern.
- `vec_string_to_str_slice` (src/lib.rs:112-114) is the identity, because `String` and `&str` are both `string` here. `ParsePatterns` therefore stands for `parse_patterns_vector` too.
- Strings are sequences of Unicode scalar values. Byte offsets, such as the `[1..]` after a one-byte `@`, coincide with character positions and are not modelled separately.
- The loop of `parse_patterns` is written once, as `CompileEach`, generic over the function that compiles one pattern. `ParsePatterns` instantiates it with `ParsePattern`.
- The error message for a wrong number of parts follows the code, which writes the separator in backticks (src/lib.rs:76).
- Allocation (`Vec::with_capacity`) and the `regex` crate's internal state are not modelled.
