/** Worked examples of the filter on concrete inputs, each derived from the
    code of src/utils.js.  Each example is split into a parsing step and a
    matching step. */
module Examples {
  import opened Wrappers
  import opened JsString
  import opened TitleGrep
  import opened TagGrep
  import opened Matcher

  // ---------------------------------------------------------------- tags

  /** The filter `"@a+@b -@c"`: `@a AND @b`, OR `NOT @c`. */
  function FilterABC(): TagFilter {
    [[TagTerm("@a", false), TagTerm("@b", false)], [TagTerm("@c", true)]]
  }

  lemma {:induction false} FilterABCWellFormed()
    ensures WellFormedFilter(FilterABC())
  {
  }

  lemma {:induction false} FilterABCText()
    ensures FilterText(FilterABC()) == "@a+@b -@c"
  {
    var f := FilterABC();
    assert "-" + "@c" == "-@c";
    assert TermTexts(f[0]) == ["@a", "@b"];
    assert TermTexts(f[1]) == ["-@c"];
    assert GroupText(f[0]) == Join(["@a", "@b"], '+') == "@a+@b";
    assert GroupText(f[1]) == Join(["-@c"], '+') == "-@c";
    assert GroupTexts(f) == ["@a+@b", "-@c"];
  }

  lemma {:induction false} TagExampleParse()
    ensures ParseTagsGrep(Some("@a+@b -@c")) == FilterABC()
  {
    FilterABCText();
    FilterABCWellFormed();
    ParseTagsGrepCharacterized(FilterText(FilterABC()), FilterABC());
  }

  lemma {:induction false} FilterABCMatch()
    ensures ShouldTestRunTags(FilterABC(), ["@a", "@b"])
    ensures !ShouldTestRunTags(FilterABC(), ["@c"])
  {
    var f := FilterABC();
    assert GroupHolds(f[0], ["@a", "@b"]);
    assert !GroupHolds(f[0], ["@c"]) by {
      assert !TermHolds(f[0][0], ["@c"]);
    }
    assert !GroupHolds(f[1], ["@c"]) by {
      assert !TermHolds(f[1][0], ["@c"]);
    }
  }

  /** The first group holds for `@a @b`; neither holds for `@c`. */
  lemma {:induction false} TagExampleMatch()
    ensures ShouldTestRunTags(ParseTagsGrep(Some("@a+@b -@c")), ["@a", "@b"])
    ensures !ShouldTestRunTags(ParseTagsGrep(Some("@a+@b -@c")), ["@c"])
  {
    TagExampleParse();
    FilterABCMatch();
  }

  /** The filter `"@a -@b"`: `@a`, OR `NOT @b`. */
  function FilterANotB(): TagFilter {
    [[TagTerm("@a", false)], [TagTerm("@b", true)]]
  }

  lemma {:induction false} FilterANotBWellFormed()
    ensures WellFormedFilter(FilterANotB())
  {
  }

  lemma {:induction false} FilterANotBText()
    ensures FilterText(FilterANotB()) == "@a -@b"
  {
    var f := FilterANotB();
    assert "-" + "@b" == "-@b";
    assert TermTexts(f[0]) == ["@a"];
    assert TermTexts(f[1]) == ["-@b"];
    assert GroupText(f[0]) == Join(["@a"], '+') == "@a";
    assert GroupText(f[1]) == Join(["-@b"], '+') == "-@b";
    assert GroupTexts(f) == ["@a", "-@b"];
  }

  lemma {:induction false} FilterANotBParse()
    ensures ParseTagsGrep(Some("@a -@b")) == FilterANotB()
  {
    FilterANotBText();
    FilterANotBWellFormed();
    ParseTagsGrepCharacterized(FilterText(FilterANotB()), FilterANotB());
  }

  /** A test without tags runs under `"@a -@b"`: `@b` is absent. */
  lemma {:induction false} TagExampleNegated()
    ensures ShouldTestRunTags(ParseTagsGrep(Some("@a -@b")), [])
  {
    FilterANotBParse();
    assert GroupHolds(FilterANotB()[1], []);
  }

  /** The filter of `"@a  @b"`, with two spaces. */
  function FilterDoubleSpace(): TagFilter {
    [[TagTerm("@a", false)], [TagTerm("", false)], [TagTerm("@b", false)]]
  }

  lemma {:induction false} FilterDoubleSpaceWellFormed()
    ensures WellFormedFilter(FilterDoubleSpace())
  {
  }

  lemma {:induction false} FilterDoubleSpaceText()
    ensures FilterText(FilterDoubleSpace()) == "@a  @b"
  {
    var f := FilterDoubleSpace();
    assert TermTexts(f[0]) == ["@a"];
    assert TermTexts(f[1]) == [""];
    assert TermTexts(f[2]) == ["@b"];
    assert GroupText(f[0]) == Join(["@a"], '+') == "@a";
    assert GroupText(f[1]) == Join([""], '+') == "";
    assert GroupText(f[2]) == Join(["@b"], '+') == "@b";
    assert GroupTexts(f) == ["@a", "", "@b"];
  }

  /** Consecutive spaces are not collapsed: they give a group whose one
      term is the empty tag. */
  lemma {:induction false} TagExampleDoubleSpace()
    ensures ParseTagsGrep(Some("@a  @b")) == FilterDoubleSpace()
  {
    FilterDoubleSpaceText();
    FilterDoubleSpaceWellFormed();
    ParseTagsGrepCharacterized(FilterText(FilterDoubleSpace()), FilterDoubleSpace());
  }

  // --------------------------------------------------------------- title

  /** A title filter text with exactly one `;` parses to two entries. */
  lemma {:induction false} TwoTitlePieces(s: string, p0: string, p1: string)
    requires s != "" && IsSplitOf([p0, p1], s, ';')
    ensures ParseFullTitleGrep(Some(s)) == [ParseTitleGrep(Some(p0)), ParseTitleGrep(Some(p1))]
  {
    FullTitleGrepPieces(s, [p0, p1]);
  }

  /** A title filter text without `;` parses to one entry. */
  lemma {:induction false} OneTitlePiece(s: string)
    requires s != "" && ';' !in s
    ensures ParseFullTitleGrep(Some(s)) == [ParseTitleGrep(Some(s))]
  {
    FullTitleGrepPieces(s, [s]);
  }

  /** The clauses of `"login;-logout"`: `login` OR `NOT logout`. */
  function LoginClauses(): seq<Option<TitleClause>> {
    [Some(TitleClause("login", false)), Some(TitleClause("logout", true))]
  }

  lemma {:induction false} LoginPieces()
    ensures ParseFullTitleGrep(Some("login;-logout"))
      == [ParseTitleGrep(Some("login")), ParseTitleGrep(Some("-logout"))]
  {
    assert Join(["login", "-logout"], ';') == "login;-logout";
    TwoTitlePieces("login;-logout", "login", "-logout");
  }

  lemma {:induction false} LoginClause()
    ensures ParseTitleGrep(Some("login")) == Some(TitleClause("login", false))
  {
    TrimOfTrimmed("login");
  }

  lemma {:induction false} LogoutClause()
    ensures ParseTitleGrep(Some("-logout")) == Some(TitleClause("logout", true))
  {
    TrimOfTrimmed("-logout");
    assert "-logout"[1..] == "logout";
  }

  lemma {:induction false} TitleExampleParse()
    ensures ParseFullTitleGrep(Some("login;-logout")) == LoginClauses()
  {
    LoginPieces();
    LoginClause();
    LogoutClause();
  }

  /** Under `"login;-logout"` a title with `login` runs, and a title with
      `logout` and without `login` satisfies neither clause and does not
      run. */
  lemma {:induction false} LoginTitleMatch()
    ensures ShouldTestRunTitle(Clauses(LoginClauses()), Some("user login flow")) == Ok(true)
  {
    assert OccursAt("user login flow", "login", 5);
  }

  lemma {:induction false} LogoutTitleMatch()
    ensures ShouldTestRunTitle(Clauses(LoginClauses()), Some("user logout flow")) == Ok(false)
  {
    NotIncludesMissingChar("user logout flow", "login", 'i');
    assert OccursAt("user logout flow", "logout", 5);
  }

  lemma {:induction false} TitleExampleOr()
    ensures ShouldTestRunTitle(Clauses(ParseFullTitleGrep(Some("login;-logout"))), Some("user login flow"))
      == Ok(true)
    ensures ShouldTestRunTitle(Clauses(ParseFullTitleGrep(Some("login;-logout"))), Some("user logout flow"))
      == Ok(false)
  {
    TitleExampleParse();
    LoginTitleMatch();
    LogoutTitleMatch();
  }

  /** The clauses of `"a;"`: `a`, then the `null` that the empty piece after
      the trailing `;` leaves at the end of the list. */
  function TrailingClauses(): seq<Option<TitleClause>> {
    [Some(TitleClause("a", false)), None]
  }

  lemma {:induction false} ClauseA()
    ensures ParseTitleGrep(Some("a")) == Some(TitleClause("a", false))
  {
    TrimOfTrimmed("a");
  }

  lemma {:induction false} ClauseEmpty()
    ensures ParseTitleGrep(Some("")) == None
  {
  }

  lemma {:induction false} TrailingPieces()
    ensures ParseFullTitleGrep(Some("a;"))
      == [ParseTitleGrep(Some("a")), ParseTitleGrep(Some(""))]
  {
    assert Join(["a", ""], ';') == "a;";
    TwoTitlePieces("a;", "a", "");
  }

  lemma {:induction false} TitleExampleTrailingParse()
    ensures ParseFullTitleGrep(Some("a;")) == TrailingClauses()
  {
    TrailingPieces();
    ClauseA();
    ClauseEmpty();
  }

  lemma {:induction false} TrailingHit()
    ensures ShouldTestRunTitle(Clauses(TrailingClauses()), Some("a test")) == Ok(true)
  {
    assert OccursAt("a test", "a", 0);
  }

  lemma {:induction false} TrailingMiss()
    ensures ShouldTestRunTitle(Clauses(TrailingClauses()), Some("other")) == Err(NullClause)
  {
    NotIncludesMissingChar("other", "a", 'a');
  }

  /** The `null` clause of `"a;"` is never reached when the first clause
      holds, and throws otherwise. */
  lemma {:induction false} TitleExampleTrailingMatch()
    ensures ShouldTestRunTitle(Clauses(ParseFullTitleGrep(Some("a;"))), Some("a test")) == Ok(true)
    ensures ShouldTestRunTitle(Clauses(ParseFullTitleGrep(Some("a;"))), Some("other")) == Err(NullClause)
  {
    TitleExampleTrailingParse();
    TrailingHit();
    TrailingMiss();
  }

  // ------------------------------------------------------------ combined

  /** The filter built from `"foo"` and `"@smoke"`. */
  function FooSmoke(): ParsedGrep {
    ParsedGrep(Clauses([Some(TitleClause("foo", false))]), [[TagTerm("@smoke", false)]])
  }

  lemma {:induction false} FooClause()
    ensures ParseTitleGrep(Some("foo")) == Some(TitleClause("foo", false))
  {
    TrimOfTrimmed("foo");
  }

  lemma {:induction false} FooTitleParse()
    ensures ParseFullTitleGrep(Some("foo")) == [Some(TitleClause("foo", false))]
  {
    OneTitlePiece("foo");
    FooClause();
  }

  lemma {:induction false} SmokeTagParse()
    ensures ParseTagsGrep(Some("@smoke")) == [[TagTerm("@smoke", false)]]
  {
    var f := [[TagTerm("@smoke", false)]];
    assert TermTexts(f[0]) == ["@smoke"];
    assert GroupText(f[0]) == Join(["@smoke"], '+') == "@smoke";
    assert GroupTexts(f) == ["@smoke"];
    ParseFilterText(f);
  }

  lemma {:induction false} FooSmokeParse()
    ensures ParseGrep(Some("foo"), Some("@smoke")) == FooSmoke()
  {
    FooTitleParse();
    SmokeTagParse();
  }

  lemma {:induction false} FooSmokeMatch()
    ensures ShouldTestRun(FooSmoke(), Name("foo test"), ["@smoke"]) == Ok(true)
    ensures ShouldTestRun(FooSmoke(), Name("foo test"), ["@slow"]) == Ok(false)
    ensures ShouldTestRun(FooSmoke(), TagList(["@smoke"]), []) == Ok(true)
  {
    assert OccursAt("foo test", "foo", 0);
    assert GroupHolds(FooSmoke().tags[0], ["@smoke"]);
  }

  /** Title and tags must both pass; an array in place of the title is
      taken as the tags. */
  lemma {:induction false} CombinedExample()
    ensures ShouldTestRun(ParseGrep(Some("foo"), Some("@smoke")), Name("foo test"), ["@smoke"]) == Ok(true)
    ensures ShouldTestRun(ParseGrep(Some("foo"), Some("@smoke")), Name("foo test"), ["@slow"]) == Ok(false)
    ensures ShouldTestRun(ParseGrep(Some("foo"), Some("@smoke")), TagList(["@smoke"]), []) == Ok(true)
  {
    FooSmokeParse();
    FooSmokeMatch();
  }
}
