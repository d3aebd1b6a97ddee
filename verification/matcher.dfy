/** Deciding whether a test runs: the tag filter, the title filter and
    their conjunction (src/utils.js:69-146). */
module Matcher {
  import opened Wrappers
  import opened JsString
  import opened TitleGrep
  import opened TagGrep

  // ---------------------------------------------------------------- tags

  /** A tag term holds of a test's tags: `tags.includes(tag)`, negated for
      an inverted term. */
  predicate TermHolds(t: TagTerm, tags: seq<string>): (b: bool)
    ensures b <==> (exists k :: 0 <= k < |tags| && tags[k] == t.tag) != t.invert
  {
    if t.invert then t.tag !in tags else t.tag in tags
  }

  /** Every term of the group holds. */
  ghost predicate GroupHolds(g: TagGroup, tags: seq<string>) {
    forall j :: 0 <= j < |g| ==> TermHolds(g[j], tags)
  }

  /** `orPart.every(...)`, evaluated left to right. */
  function EveryTerm(g: TagGroup, tags: seq<string>): (b: bool)
    ensures b <==> GroupHolds(g, tags)
    decreases |g|
  {
    if |g| == 0 then true
    else TermHolds(g[0], tags) && EveryTerm(g[1..], tags)
  }

  /** `parsedGrepTags.some(...)`, evaluated left to right. */
  function SomeGroup(f: TagFilter, tags: seq<string>): (b: bool)
    ensures b <==> exists i :: 0 <= i < |f| && GroupHolds(f[i], tags)
    decreases |f|
  {
    if |f| == 0 then false
    else EveryTerm(f[0], tags) || SomeGroup(f[1..], tags)
  }

  /** `shouldTestRunTags`: an empty filter lets every test run; otherwise
      some group must have all of its terms hold.  A missing tag list is
      the empty list. */
  function ShouldTestRunTags(f: TagFilter, tags: seq<string>): (b: bool)
    ensures |f| == 0 ==> b
    ensures |f| > 0 ==> (b <==> exists i :: 0 <= i < |f| && GroupHolds(f[i], tags))
  {
    if |f| == 0 then true else SomeGroup(f, tags)
  }

  /** The filter has no inverted term. */
  predicate NoInvertedTerm(f: TagFilter) {
    forall i, j :: 0 <= i < |f| && 0 <= j < |f[i]| ==> !f[i][j].invert
  }

  /** Without inverted terms the tag filter is monotone: a test that runs
      still runs when it carries more tags. */
  lemma {:induction false} TagsMonotone(f: TagFilter, tags: seq<string>, more: seq<string>)
    requires NoInvertedTerm(f)
    requires forall x :: x in tags ==> x in more
    requires ShouldTestRunTags(f, tags)
    ensures ShouldTestRunTags(f, more)
  {
    if |f| > 0 {
      var i :| 0 <= i < |f| && GroupHolds(f[i], tags);
      assert GroupHolds(f[i], more) by {
        forall j | 0 <= j < |f[i]|
          ensures TermHolds(f[i][j], more)
        {
          assert TermHolds(f[i][j], tags);
        }
      }
    }
  }

  /** The filter has only inverted terms. */
  predicate OnlyInvertedTerms(f: TagFilter) {
    forall i, j :: 0 <= i < |f| && 0 <= j < |f[i]| ==> f[i][j].invert
  }

  /** With only inverted terms the tag filter is antitone: a test that runs
      still runs when it carries fewer tags. */
  lemma {:induction false} TagsAntitone(f: TagFilter, tags: seq<string>, fewer: seq<string>)
    requires OnlyInvertedTerms(f)
    requires forall x :: x in fewer ==> x in tags
    requires ShouldTestRunTags(f, tags)
    ensures ShouldTestRunTags(f, fewer)
  {
    if |f| > 0 {
      var i :| 0 <= i < |f| && GroupHolds(f[i], tags);
      assert GroupHolds(f[i], fewer) by {
        forall j | 0 <= j < |f[i]|
          ensures TermHolds(f[i][j], fewer)
        {
          assert TermHolds(f[i][j], tags);
        }
      }
    }
  }

  // --------------------------------------------------------------- title

  /** What `shouldTestRunTitle` may be handed as the parsed title filter:
      a falsy value (`null`, `undefined`), an array of clauses whose entries
      may be `null`, or some other truthy value. */
  datatype TitleFilter = Falsy | Clauses(clauses: seq<Option<TitleClause>>) | NotAnArray

  /** The two ways `shouldTestRunTitle` throws: the `Error` it raises for a
      non-array filter, and the `TypeError` of reading `invert` of a `null`
      clause. */
  datatype TitleError = ExpectedArray | NullClause

  /** A clause holds of a test title: `testName.includes(title)`, negated
      for an inverted clause. */
  predicate ClauseHolds(c: TitleClause, name: string): (b: bool)
    ensures c.title == "" ==> (b <==> !c.invert)
    ensures !c.invert && b ==> |c.title| <= |name|
    ensures c.invert && |c.title| > |name| ==> b
  {
    if c.invert then !Includes(name, c.title) else Includes(name, c.title)
  }

  /** `some` has reached index `i`: every earlier entry is a clause that
      does not hold. */
  ghost predicate Reaches(cs: seq<Option<TitleClause>>, name: string, i: int) {
    forall k :: 0 <= k < i && k < |cs| ==> cs[k].Some? && !ClauseHolds(cs[k].value, name)
  }

  /** `parsedGrep.some(...)` over the clause array, left to right: the first
      clause that holds answers `true`; a `null` entry reached before any
      such clause throws; if every entry is a clause and none holds the
      answer is `false`. */
  function SomeClause(cs: seq<Option<TitleClause>>, name: string): (r: Result<bool, TitleError>)
    ensures r == Ok(true) <==>
      exists i :: 0 <= i < |cs| && Reaches(cs, name, i) && cs[i].Some? && ClauseHolds(cs[i].value, name)
    ensures r == Ok(false) <==> Reaches(cs, name, |cs|)
    ensures r.Err? <==> exists i :: 0 <= i < |cs| && Reaches(cs, name, i) && cs[i].None?
    ensures r.Err? ==> r.error == NullClause
    decreases |cs|
  {
    if |cs| == 0 then Ok(false)
    else
      var rest := SomeClause(cs[1..], name);
      ReachesStep(cs, name);
      match cs[0]
      case None => Err(NullClause)
      case Some(c) => if ClauseHolds(c, name) then Ok(true) else rest
  }

  /** Reaching index `i + 1` of a list whose first clause does not hold is
      reaching index `i` of its tail. */
  lemma {:induction false} ReachesStep(cs: seq<Option<TitleClause>>, name: string)
    requires |cs| > 0
    ensures cs[0].Some? && !ClauseHolds(cs[0].value, name) ==>
      forall i :: 0 <= i < |cs| ==> (Reaches(cs, name, i + 1) <==> Reaches(cs[1..], name, i))
    ensures forall i :: 0 < i <= |cs| && Reaches(cs, name, i) ==>
      cs[0].Some? && !ClauseHolds(cs[0].value, name)
    ensures Reaches(cs, name, 0)
  {
    if cs[0].Some? && !ClauseHolds(cs[0].value, name) {
      forall i | 0 <= i < |cs|
        ensures Reaches(cs, name, i + 1) <==> Reaches(cs[1..], name, i)
      {
        if Reaches(cs[1..], name, i) {
          forall k | 0 <= k < i + 1 && k < |cs|
            ensures cs[k].Some? && !ClauseHolds(cs[k].value, name)
          {
            if k > 0 { assert cs[k] == cs[1..][k - 1]; }
          }
        }
        if Reaches(cs, name, i + 1) {
          forall k | 0 <= k < i && k < |cs| - 1
            ensures cs[1..][k].Some? && !ClauseHolds(cs[1..][k].value, name)
          {
            assert cs[1..][k] == cs[k + 1];
          }
        }
      }
    }
  }

  /** `shouldTestRunTitle`.  The guards are checked in the source's order:
      a falsy test name lets the test run whatever the filter is (even a
      non-array); then a falsy filter lets it run; then a non-array filter
      throws; then an empty clause list lets it run.  After the guards the
      clauses are combined by OR only, left to right. */
  function ShouldTestRunTitle(p: TitleFilter, name: Option<string>): (r: Result<bool, TitleError>)
    ensures name.None? || name.value == "" ==> r == Ok(true)
    ensures name.Some? && name.value != "" ==>
      && (p.Falsy? ==> r == Ok(true))
      && (p.NotAnArray? ==> r == Err(ExpectedArray))
      && (p.Clauses? && |p.clauses| == 0 ==> r == Ok(true))
      && (p.Clauses? && |p.clauses| > 0 ==>
            && (r == Ok(true) <==>
                  exists i :: 0 <= i < |p.clauses| && Reaches(p.clauses, name.value, i)
                           && p.clauses[i].Some? && ClauseHolds(p.clauses[i].value, name.value))
            && (r == Ok(false) <==> Reaches(p.clauses, name.value, |p.clauses|))
            && (r.Err? ==> r.error == NullClause))
  {
    match name
    case None => Ok(true)
    case Some(n) =>
      if n == "" then Ok(true)
      else
        match p
        case Falsy => Ok(true)
        case NotAnArray => Err(ExpectedArray)
        case Clauses(cs) => if |cs| == 0 then Ok(true) else SomeClause(cs, n)
  }

  /** No entry of the clause list is `null`. */
  predicate AllClauses(cs: seq<Option<TitleClause>>) {
    forall i :: 0 <= i < |cs| ==> cs[i].Some?
  }

  /** Without `null` entries the title filter never throws, and a test runs
      exactly when some clause holds: pure OR, even when clauses are
      inverted. */
  lemma {:induction false} TitleIsPureOr(cs: seq<Option<TitleClause>>, name: string)
    requires name != "" && |cs| > 0 && AllClauses(cs)
    ensures ShouldTestRunTitle(Clauses(cs), Some(name)).Ok?
    ensures ShouldTestRunTitle(Clauses(cs), Some(name)).value
      <==> exists i :: 0 <= i < |cs| && ClauseHolds(cs[i].value, name)
  {
    var r := ShouldTestRunTitle(Clauses(cs), Some(name));
    assert r == SomeClause(cs, name);
    if exists i :: 0 <= i < |cs| && ClauseHolds(cs[i].value, name) {
      var i := FirstHolding(cs, name);
      assert r == Ok(true);
    } else {
      assert Reaches(cs, name, |cs|);
    }
  }

  /** The first clause that holds, in a list without `null` entries. */
  lemma {:induction false} FirstHolding(cs: seq<Option<TitleClause>>, name: string) returns (i: int)
    requires AllClauses(cs)
    requires exists i :: 0 <= i < |cs| && ClauseHolds(cs[i].value, name)
    ensures 0 <= i < |cs| && Reaches(cs, name, i) && ClauseHolds(cs[i].value, name)
  {
    i := 0;
    while !ClauseHolds(cs[i].value, name)
      invariant 0 <= i < |cs|
      invariant Reaches(cs, name, i)
      invariant exists j :: i <= j < |cs| && ClauseHolds(cs[j].value, name)
      decreases |cs| - i
    {
      i := i + 1;
    }
  }

  /** A `null` entry throws only when `some` reaches it: a clause that holds
      before it still lets the test run, so `"a;"` runs a title containing
      `a` and throws on any other non-empty title. */
  lemma {:induction false} NullClauseReached(cs: seq<Option<TitleClause>>, name: string, i: int)
    requires name != ""
    requires 0 <= i < |cs| && cs[i].None? && Reaches(cs, name, i)
    ensures ShouldTestRunTitle(Clauses(cs), Some(name)) == Err(NullClause)
  {
  }

  /** Appending clauses to a non-empty list never stops a test from
      running: OR is monotone in the clause list.  (An empty list lets every
      test run, so appending to it can.) */
  lemma {:induction false} TitleAppendMonotone(cs: seq<Option<TitleClause>>, more: seq<Option<TitleClause>>, name: string)
    requires |cs| > 0
    requires ShouldTestRunTitle(Clauses(cs), Some(name)) == Ok(true)
    ensures ShouldTestRunTitle(Clauses(cs + more), Some(name)) == Ok(true)
  {
    if name != "" {
      var i :| 0 <= i < |cs| && Reaches(cs, name, i) && cs[i].Some? && ClauseHolds(cs[i].value, name);
      assert (cs + more)[i] == cs[i];
      assert Reaches(cs + more, name, i) by {
        forall k | 0 <= k < i
          ensures (cs + more)[k] == cs[k]
        {
        }
      }
    }
  }

  // ------------------------------------------------------------ combined

  /** The combined filter `{title, tags}` that `parseGrep` builds. */
  datatype ParsedGrep = ParsedGrep(title: TitleFilter, tags: TagFilter)

  /** The second argument of `shouldTestRun`: missing, a test title, or an
      array, which the source takes to be the test's tags. */
  datatype NameArg = Absent | Name(name: string) | TagList(tags: seq<string>)

  /** `shouldTestRun`: the title decision AND the tag decision, the title
      first, so a thrown title error propagates.  When the second argument
      is an array it replaces the tags and the title is absent; a missing
      third argument is the empty list. */
  function ShouldTestRun(p: ParsedGrep, arg: NameArg, tags: seq<string>): (r: Result<bool, TitleError>)
    ensures arg.TagList? ==> r == Ok(ShouldTestRunTags(p.tags, arg.tags))
    ensures arg.Absent? ==> r == Ok(ShouldTestRunTags(p.tags, tags))
    ensures arg.Name? ==>
      match ShouldTestRunTitle(p.title, Some(arg.name))
      case Err(e) => r == Err(e)
      case Ok(b) => r == Ok(b && ShouldTestRunTags(p.tags, tags))
  {
    var (title, candidateTags) :=
      match arg
      case Absent => (None, tags)
      case Name(n) => (Some(n), tags)
      case TagList(ts) => (None, ts);
    match ShouldTestRunTitle(p.title, title)
    case Err(e) => Err(e)
    case Ok(b) => Ok(b && ShouldTestRunTags(p.tags, candidateTags))
  }

  /** `parseGrep`: the title filter is always an array, so `ShouldTestRun`
      never throws `ExpectedArray` for it; each half is empty, and so lets
      every test run, exactly when its raw input is missing or empty. */
  function ParseGrep(titlePart: Option<string>, tagsPart: Option<string>): (p: ParsedGrep)
    ensures p.title.Clauses?
    ensures |p.title.clauses| == 0 <==> titlePart.None? || titlePart.value == ""
    ensures |p.tags| == 0 <==> tagsPart.None? || tagsPart.value == ""
  {
    ParsedGrep(Clauses(ParseFullTitleGrep(titlePart)), ParseTagsGrep(tagsPart))
  }

  /** A filter built by `ParseGrep` from title text that is missing, empty,
      or without empty `;`-pieces never makes `ShouldTestRun` throw. */
  lemma {:induction false} ParsedGrepNeverThrows(titlePart: Option<string>, tagsPart: Option<string>,
                                                 arg: NameArg, tags: seq<string>)
    requires titlePart.Some? && titlePart.value != "" ==>
      forall i :: 0 <= i < |Split(titlePart.value, ';')| ==> Split(titlePart.value, ';')[i] != ""
    ensures ShouldTestRun(ParseGrep(titlePart, tagsPart), arg, tags).Ok?
  {
    var p := ParseGrep(titlePart, tagsPart);
    var cs := p.title.clauses;
    assert AllClauses(cs);
    if arg.Name? && arg.name != "" && |cs| > 0 {
      TitleIsPureOr(cs, arg.name);
    }
  }

  /** With both raw inputs missing or empty every test runs. */
  lemma {:induction false} EmptyGrepRunsAll(titlePart: Option<string>, tagsPart: Option<string>,
                                            arg: NameArg, tags: seq<string>)
    requires titlePart.None? || titlePart.value == ""
    requires tagsPart.None? || tagsPart.value == ""
    ensures ShouldTestRun(ParseGrep(titlePart, tagsPart), arg, tags) == Ok(true)
  {
  }
}
