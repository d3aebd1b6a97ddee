# cypress-grep test filter, modelled in Dafny

cypress-grep decides which Cypress tests run from two filter strings: a
title filter and a tag filter. The decision is made in `src/utils.js` by
seven small functions:

- `parseTitleGrep` and `parseFullTitleGrep` turn the title filter into a
  list of clauses. Clauses are separated by `;`. Each clause is a
  substring, and a leading `-` inverts it.
- `parseTagsGrep` turns the tag filter into OR-groups of AND-terms.
  Groups are separated by a space and terms by `+`. A leading `-` on a
  term means the tag must be absent.
- `shouldTestRunTitle`, `shouldTestRunTags` and `shouldTestRun` evaluate
  a test's title and tags against the parsed filter.
- `parseGrep` builds the combined filter object.

The project models all seven as pure Dafny functions, together with the
JavaScript string operations they rely on.

| Module (file) | Contents |
|---|---|
| `Wrappers` (`wrappers.dfy`) | `Option`, which stands for `null`, undefined or a non-string, and `Result`, which stands for a thrown exception. |
| `JsString` (`jsstring.dfy`) | `trim`, `includes`, `split` on one character, and `join` as its inverse. |
| `TitleGrep` (`titlegrep.dfy`) | The title parser. |
| `TagGrep` (`taggrep.dfy`) | The tag parser, and the text a parsed tag filter is written back as. |
| `Matcher` (`matcher.dfy`) | The three decision functions and `parseGrep`. |
| `Examples` (`examples.dfy`) | Concrete filters worked through the model. |

Some points follow the code closely:

- **Title matching can throw.** An empty `;`-piece parses to `null`.
  `shouldTestRunTitle` reads `invert` of every clause it visits, so a
  `null` entry throws. It throws only if the left-to-right `some`
  reaches that entry before a clause that holds. `"a;"` therefore lets a
  title containing `a` run, and throws on any other non-empty title
  (`Examples.TitleExampleTrailingMatch`). An empty title runs without
  looking at the clauses (src/utils.js:96-98).
- **Title matching is OR only, even for inverted clauses.** The code
  carries a TODO about this at src/utils.js:114-116.
  - `"login;-logout"` against the title `"user logout flow"` gives
    **false**: neither clause holds, so the OR is false
    (`Examples.TitleExampleOr`).
- **Only the empty string is a missing title.** A whitespace-only title
  filter is truthy. It parses to the empty clause, which every title
  contains (`TitleGrep.BlankClause`).
- **The tag parser trims nothing.** Two consecutive spaces produce a group
  whose one term is the empty tag (`Examples.TagExampleDoubleSpace`).

## Model

| member | source | states |
|---|---|---|
| JsString.Trim | src/utils.js:15 | `trim` leaves no whitespace at either end, and removes only whitespace padding from the input |
| JsString.TrimCharacterized | src/utils.js:15 | the trim is the only core without edge whitespace that the input pads, so `Trim` agrees with this declarative definition |
| JsString.TrimEmptyIffBlank | src/utils.js:15 | `trim` gives the empty string exactly for an input that is all whitespace |
| JsString.TrimIdempotent | src/utils.js:15 | trimming twice is trimming once |
| JsString.Includes | src/utils.js:120-123 | `includes` on strings is contiguous-substring containment: an included string is no longer than the title, the empty string is always included, and a string of the same length is included only if equal |
| JsString.IncludesAsConcat | src/utils.js:120-123 | `includes` holds iff the title is some prefix, then the clause title, then some suffix |
| JsString.IncludesEmpty | src/utils.js:120-123 | every string includes the empty string, so an empty clause title matches every test title |
| JsString.NotIncludesMissingChar | src/utils.js:120-123 | a string missing one character of `sub` does not include `sub` |
| JsString.Split | src/utils.js:34 | `split` on a one-character separator yields one more piece than there are separators, and no piece holds the separator |
| JsString.JoinSplit | src/utils.js:47-49 | joining the pieces of a split with the separator gives back the input exactly |
| JsString.SplitJoin | src/utils.js:47-49 | splitting a join of separator-free pieces gives back the pieces |
| JsString.SplitUnique | src/utils.js:34 | the pieces of a split are the only decomposition of the input at its separators |
| JsString.NotInSplit | src/utils.js:47-49 | a character absent from the input is absent from every piece of its split, so no `+`-piece of a space-separated part holds a space |
| TitleGrep.ParseTitleGrep | src/utils.js:10-26 | `null` exactly for a missing, non-string or empty input. Otherwise a clause that is inverted iff the trimmed input starts with `-`; `-` followed by the title (or the title alone if not inverted) is the trimmed input; a non-inverted title has no edge whitespace |
| TitleGrep.ParseTrimmed | src/utils.js:16-25 | on trimmed text, a leading `-` is dropped and inverts the clause, and the clause text reproduces the input |
| TitleGrep.ReparseClause | src/utils.js:10-26 | an input that is not all whitespace parses to a clause, and parsing that clause's text gives the same clause again |
| TitleGrep.BlankClause | src/utils.js:11-25 | a whitespace-only filter is not `null` and parses to the empty, non-inverted clause |
| TitleGrep.ParseFullTitleGrep | src/utils.js:28-35 | `[]` for a missing or empty input; otherwise one entry per `;`-piece, and an entry is `null` exactly when its piece is empty |
| TitleGrep.FullTitleGrepPieces | src/utils.js:28-35 | for any decomposition of the input at its semicolons, entry `i` is the parse of piece `i`, in order |
| TagGrep.ParseTerm | src/utils.js:50-60 | a term is inverted iff its piece starts with `-`, its text reproduces the piece, and a piece without a space or `+` gives a well-formed term |
| TagGrep.ParseGroup | src/utils.js:49-63 | a group has one term per `+`-piece, term `j` is inverted iff piece `j` starts with `-`, its text reproduces the part, and a part without a space gives well-formed terms |
| TagGrep.ParseTagsGrep | src/utils.js:41-67 | `[]` for a missing or empty input; otherwise one group per space-separated part, a well-formed filter (no empty group, no separator inside a tag, a plain tag never starting with `-`), and the filter's text reproduces the input exactly |
| TagGrep.ParseTagsGrepCharacterized | src/utils.js:41-67 | the parse of a non-empty input is the one well-formed filter whose text is that input |
| TagGrep.ParseTermText | src/utils.js:50-60 | parsing the text of a well-formed term gives the term back |
| TagGrep.ParseGroupText | src/utils.js:49-63 | parsing the text of a well-formed group gives the group back, and that text holds no space |
| TagGrep.ParseFilterText | src/utils.js:41-67 | parsing the text of a well-formed filter gives the filter back; with `ParseTagsGrep`'s contract, parser and writer are inverse |
| Matcher.TermHolds | src/utils.js:80-84 | a term holds iff some entry of the tag array equals its tag exactly (`Array.prototype.includes`), negated for an inverted term |
| Matcher.EveryTerm | src/utils.js:79-85 | the left-to-right `every` holds iff every term holds: a plain tag must be present and an inverted tag absent |
| Matcher.SomeGroup | src/utils.js:78-89 | the left-to-right `some` holds iff some group has all of its terms hold |
| Matcher.ShouldTestRunTags | src/utils.js:69-93 | an empty filter lets every test run; otherwise a test runs iff some group has all of its terms hold |
| Matcher.TagsMonotone | src/utils.js:69-93 | without inverted terms, a test that runs still runs when it carries more tags |
| Matcher.TagsAntitone | src/utils.js:69-93 | with only inverted terms, a test that runs still runs when it carries fewer tags |
| Matcher.ClauseHolds | src/utils.js:119-123 | a clause with an empty title holds iff it is not inverted; a plain clause holds only if its title fits in the test title; an inverted clause whose title is longer than the test title always holds |
| Matcher.SomeClause | src/utils.js:118-124 | the left-to-right `some` gives true iff a clause holds before any `null`; false iff every entry is a clause that does not hold; it throws iff a `null` is reached |
| Matcher.ShouldTestRunTitle | src/utils.js:95-125 | the guards in order: a falsy name runs, then a falsy filter runs, then a non-array throws, then an empty list runs; after them, the `some` result over the clauses |
| Matcher.TitleIsPureOr | src/utils.js:114-124 | without `null` entries, the title filter never throws and runs a test iff some clause holds, inverted clauses included |
| Matcher.FirstHolding | src/utils.js:118-124 | in a list without `null` entries that has a holding clause, `some` reaches a first holding clause |
| Matcher.NullClauseReached | src/utils.js:119 | a `null` entry that `some` reaches makes the title filter throw |
| Matcher.TitleAppendMonotone | src/utils.js:118-124 | appending clauses to a non-empty list never stops a running test from running |
| Matcher.ShouldTestRun | src/utils.js:128-139 | the title result AND the tag result, with a title error passed on; an array second argument becomes the tags, and the title then counts as absent |
| Matcher.ParseGrep | src/utils.js:141-146 | the title part is always an array, and each half is empty exactly when its raw input is missing or empty |
| Matcher.ParsedGrepNeverThrows | src/utils.js:128-146 | a filter from `parseGrep` whose title text is missing, empty, or has no empty `;`-piece never makes `shouldTestRun` throw |
| Matcher.EmptyGrepRunsAll | src/utils.js:128-146 | with both raw inputs missing or empty, every test runs |
| Examples.TagExampleParse | src/utils.js:41-67 | `"@a+@b -@c"` parses to `@a AND @b`, OR `NOT @c` |
| Examples.TagExampleMatch | src/utils.js:69-93 | that filter runs a test tagged `@a @b` and skips a test tagged `@c` |
| Examples.TagExampleNegated | src/utils.js:69-93 | `"@a -@b"` runs a test that has no tags |
| Examples.TagExampleDoubleSpace | src/utils.js:47-61 | `"@a  @b"` parses to three groups, the middle one the empty tag |
| Examples.TitleExampleParse | src/utils.js:28-35 | `"login;-logout"` parses to `login` and inverted `logout` |
| Examples.TitleExampleOr | src/utils.js:118-124 | that filter runs `"user login flow"` and skips `"user logout flow"` |
| Examples.TitleExampleTrailingParse | src/utils.js:28-35 | `"a;"` parses to the clause `a` followed by `null` |
| Examples.TitleExampleTrailingMatch | src/utils.js:118-124 | `"a;"` runs a title containing `a` and throws on the non-empty title `"other"` |
| Examples.CombinedExample | src/utils.js:128-146 | title `"foo"` with tag `"@smoke"` runs `"foo test"` tagged `@smoke` and skips it when tagged `@slow`; an array second argument is taken as the tags |

## Left out

- The `console.error` calls at src/utils.js:105-106 are not modelled. Only the thrown error is modelled, as `Err(ExpectedArray)`.
- JavaScript duck typing is reduced to `Option<string>`. A truthy non-string input to `parseTagsGrep` would crash at `split`, and it is not modelled. Neither is a truthy non-string test name given to `shouldTestRunTitle`.
- The clause list is typed as `seq<Option<TitleClause>>`, so an array holding other truthy non-clause values is not modelled.
- `JsString.IsWs` is the ECMAScript whitespace and line-terminator set of code points. Only the worked examples depend on its members, and only on ASCII letters and `-` not being whitespace, so the exact Unicode table version does not matter.
- Strings are sequences of `char`. UTF-16 surrogate pairs are not modelled, and none of the separators or `-` can be half of one.
- `Array.prototype.map` passes its callback an index and the array as extra arguments. `parseTitleGrep` ignores them, so they are not modelled.
- The `module.exports` table and the Cypress plugin wiring that supplies the filter strings from the environment are outside this file and are not modelled.
