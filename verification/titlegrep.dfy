/** The title half of the grep filter: one clause per `;`-separated piece,
    each clause a substring to look for, inverted by a leading `-`
    (src/utils.js:10-35). */
module TitleGrep {
  import opened Wrappers
  import opened JsString

  /** One title clause: the test title must contain `title`, or, when
      `invert` is set, must not contain it. */
  datatype TitleClause = TitleClause(title: string, invert: bool)

  /** The trimmed text a clause was parsed from: the title, with the `-`
      put back in front when the clause is inverted. */
  function ClauseText(c: TitleClause): string {
    if c.invert then "-" + c.title else c.title
  }

  /** `parseTitleGrep`.  `None` is the JavaScript `null` result, returned
      for a missing or non-string input and for the empty string, the only
      falsy string.  A whitespace-only input is truthy and gives an empty,
      non-inverted title. */
  function ParseTitleGrep(s: Option<string>): (r: Option<TitleClause>)
    ensures r.None? <==> s.None? || s.value == ""
    ensures r.Some? ==>
      (r.value.invert <==> (|Trim(s.value)| > 0 && Trim(s.value)[0] == '-'))
    ensures r.Some? ==> ClauseText(r.value) == Trim(s.value)
    ensures r.Some? && !r.value.invert ==> NoEdgeWs(r.value.title)
  {
    match s
    case None => None
    case Some(str) =>
      if str == "" then None else Some(ParseTrimmed(Trim(str)))
  }

  /** The clause of an already trimmed string: a leading `-` is dropped and
      inverts the clause.  A non-inverted title is therefore trimmed; an
      inverted one may begin with whitespace (`"- x"` gives `" x"`). */
  function ParseTrimmed(t: string): (c: TitleClause)
    requires NoEdgeWs(t)
    ensures c.invert <==> |t| > 0 && t[0] == '-'
    ensures ClauseText(c) == t
    ensures !c.invert ==> NoEdgeWs(c.title)
  {
    if |t| > 0 && t[0] == '-' then
      assert t == "-" + t[1..];
      TitleClause(t[1..], true)
    else
      TitleClause(t, false)
  }

  /** Parsing the text of a parsed clause gives the same clause back, as
      long as the input is not all whitespace (otherwise that text is empty,
      which is falsy and parses to `None`). */
  lemma {:induction false} ReparseClause(s: string)
    requires !AllWs(s)
    ensures ParseTitleGrep(Some(s)).Some?
    ensures ParseTitleGrep(Some(ClauseText(ParseTitleGrep(Some(s)).value)))
      == ParseTitleGrep(Some(s))
  {
    TrimEmptyIffBlank(s);
    assert s != "";
    var t := Trim(s);
    assert ClauseText(ParseTitleGrep(Some(s)).value) == t != "";
    TrimIdempotent(s);
    assert ParseTitleGrep(Some(t)) == Some(ParseTrimmed(t));
  }

  /** A whitespace-only input gives the clause that every title contains:
      an empty, non-inverted title. */
  lemma {:induction false} BlankClause(s: string)
    requires s != "" && AllWs(s)
    ensures ParseTitleGrep(Some(s)) == Some(TitleClause("", false))
  {
    assert s == s + ([] + []);
    PaddedIntro(s, s, [], []);
    TrimCharacterized(s, []);
  }

  /** `parseFullTitleGrep`: `[]` for a missing, non-string or empty input;
      otherwise one entry per `;`-separated piece, in order, each the
      `parseTitleGrep` of its piece.  Pieces are not trimmed before the
      clause parser sees them, and an empty piece gives a `None` entry. */
  function ParseFullTitleGrep(s: Option<string>): (r: seq<Option<TitleClause>>)
    ensures s.None? || s.value == "" ==> r == []
    ensures s.Some? && s.value != "" ==> |r| == Count(s.value, ';') + 1
    ensures s.Some? && s.value != "" ==>
      forall i :: 0 <= i < |r| ==> (r[i].None? <==> Split(s.value, ';')[i] == "")
  {
    match s
    case None => []
    case Some(str) =>
      if str == "" then []
      else
        var pieces := Split(str, ';');
        seq(|pieces|, i requires 0 <= i < |pieces| => ParseTitleGrep(Some(pieces[i])))
  }

  /** Stated against any decomposition of the input at its semicolons,
      rather than against `Split`: the entries are the parses of those
      pieces, in order. */
  lemma {:induction false} FullTitleGrepPieces(s: string, pieces: seq<string>)
    requires s != ""
    requires IsSplitOf(pieces, s, ';')
    ensures |ParseFullTitleGrep(Some(s))| == |pieces|
    ensures forall i :: 0 <= i < |pieces| ==>
      ParseFullTitleGrep(Some(s))[i] == ParseTitleGrep(Some(pieces[i]))
  {
    SplitUnique(pieces, s, ';');
  }
}
