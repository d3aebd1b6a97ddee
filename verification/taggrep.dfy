/** The tag half of the grep filter: a disjunction of conjunctions of tag
    terms, written `"@a+@b -@c"` (src/utils.js:41-67). */
module TagGrep {
  import opened Wrappers
  import opened JsString

  /** One tag term: the test must carry `tag`, or, when `invert` is set,
      must not carry it. */
  datatype TagTerm = TagTerm(tag: string, invert: bool)

  /** Terms joined by `+`: all of them must hold. */
  type TagGroup = seq<TagTerm>

  /** Groups joined by a space: one of them must hold. */
  type TagFilter = seq<TagGroup>

  /** The text of a term: its tag, with the `-` put back when inverted. */
  function TermText(t: TagTerm): string {
    if t.invert then "-" + t.tag else t.tag
  }

  /** The texts of the terms of a group, in order. */
  function TermTexts(g: TagGroup): (texts: seq<string>)
    ensures |texts| == |g|
    ensures forall j :: 0 <= j < |g| ==> texts[j] == TermText(g[j])
  {
    seq(|g|, j requires 0 <= j < |g| => TermText(g[j]))
  }

  /** The text of a group: its terms joined by `+`. */
  function GroupText(g: TagGroup): string
    requires |g| >= 1
  {
    Join(TermTexts(g), '+')
  }

  /** Every group of the filter has at least one term. */
  predicate GroupsNonEmpty(f: TagFilter) {
    forall i :: 0 <= i < |f| ==> |f[i]| >= 1
  }

  /** The texts of the groups of a filter, in order. */
  function GroupTexts(f: TagFilter): (texts: seq<string>)
    requires GroupsNonEmpty(f)
    ensures |texts| == |f|
    ensures forall i :: 0 <= i < |f| ==> texts[i] == GroupText(f[i])
  {
    seq(|f|, i requires 0 <= i < |f| => GroupText(f[i]))
  }

  /** The text of a filter: its groups joined by a space. */
  function FilterText(f: TagFilter): string
    requires |f| >= 1 && GroupsNonEmpty(f)
  {
    Join(GroupTexts(f), ' ')
  }

  /** One term of `parseTagsGrep`: a leading `-` is dropped and inverts the
      term; no other character is special and nothing is trimmed. */
  function ParseTerm(piece: string): (t: TagTerm)
    ensures t.invert <==> |piece| > 0 && piece[0] == '-'
    ensures TermText(t) == piece
    ensures ' ' !in piece && '+' !in piece ==> WellFormedTerm(t)
  {
    if |piece| > 0 && piece[0] == '-' then
      assert piece == "-" + piece[1..];
      TagTerm(piece[1..], true)
    else
      TagTerm(piece, false)
  }

  /** One space-separated part of `parseTagsGrep`: its `+`-separated
      pieces, each parsed as a term. */
  function ParseGroup(part: string): (g: TagGroup)
    ensures |g| == Count(part, '+') + 1
    ensures GroupText(g) == part
    ensures forall j :: 0 <= j < |g| ==>
      (g[j].invert <==> |Split(part, '+')[j]| > 0 && Split(part, '+')[j][0] == '-')
    ensures ' ' !in part ==> forall j :: 0 <= j < |g| ==> WellFormedTerm(g[j])
  {
    var pieces := Split(part, '+');
    var g := seq(|pieces|, j requires 0 <= j < |pieces| => ParseTerm(pieces[j]));
    assert TermTexts(g) == pieces;
    JoinSplit(part, '+');
    assert ' ' !in part ==> forall j :: 0 <= j < |pieces| ==> ' ' !in pieces[j] by {
      if ' ' !in part { NotInSplit(part, '+', ' '); }
    }
    g
  }

  /** `parseTagsGrep`.  A missing or empty input gives the empty filter.
      Otherwise there is one group per space-separated part, including the
      empty parts that consecutive spaces produce, and no group is empty.
      Writing the result back out reproduces the input exactly. */
  function ParseTagsGrep(s: Option<string>): (f: TagFilter)
    ensures s.None? || s.value == "" ==> f == []
    ensures s.Some? && s.value != "" ==>
      && |f| == Count(s.value, ' ') + 1
      && WellFormedFilter(f)
      && FilterText(f) == s.value
  {
    match s
    case None => []
    case Some(str) =>
      if str == "" then []
      else
        var parts := Split(str, ' ');
        var f := seq(|parts|, i requires 0 <= i < |parts| => ParseGroup(parts[i]));
        assert GroupTexts(f) == parts;
        JoinSplit(str, ' ');
        f
  }

  /** A term whose text survives parsing: its tag has no separator in it,
      and a plain tag does not start with `-`. */
  predicate WellFormedTerm(t: TagTerm) {
    && ' ' !in t.tag
    && '+' !in t.tag
    && (!t.invert ==> !(|t.tag| > 0 && t.tag[0] == '-'))
  }

  /** A filter `parseTagsGrep` can produce from a non-empty input. */
  predicate WellFormedFilter(f: TagFilter) {
    && |f| >= 1
    && GroupsNonEmpty(f)
    && (forall i, j :: 0 <= i < |f| && 0 <= j < |f[i]| ==> WellFormedTerm(f[i][j]))
  }

  lemma {:induction false} ParseTermText(t: TagTerm)
    requires WellFormedTerm(t)
    ensures ParseTerm(TermText(t)) == t
  {
    if t.invert {
      assert ("-" + t.tag)[1..] == t.tag;
    }
  }

  lemma {:induction false} ParseGroupText(g: TagGroup)
    requires |g| >= 1
    requires forall j :: 0 <= j < |g| ==> WellFormedTerm(g[j])
    ensures ParseGroup(GroupText(g)) == g
    ensures ' ' !in GroupText(g)
  {
    var texts := TermTexts(g);
    forall j | 0 <= j < |g|
      ensures '+' !in texts[j] && ' ' !in texts[j]
      ensures ParseTerm(texts[j]) == g[j]
    {
      ParseTermText(g[j]);
    }
    SplitJoin(texts, '+');
    NotInJoin(texts, '+', ' ');
  }

  /** Parsing the text of a well-formed filter gives the filter back.  With
      the contract of `ParseTagsGrep`, which produces well-formed filters
      whose text is the input, the parser and `FilterText` are inverse
      bijections between non-empty inputs and well-formed filters with
      non-empty text. */
  lemma {:induction false} ParseFilterText(f: TagFilter)
    requires WellFormedFilter(f)
    requires FilterText(f) != ""
    ensures ParseTagsGrep(Some(FilterText(f))) == f
  {
    var texts := GroupTexts(f);
    forall i | 0 <= i < |f|
      ensures ' ' !in texts[i]
      ensures ParseGroup(texts[i]) == f[i]
    {
      ParseGroupText(f[i]);
    }
    SplitJoin(texts, ' ');
  }

  /** `ParseTagsGrep` is characterized by its contract: the one well-formed
      filter whose text is the input. */
  lemma {:induction false} ParseTagsGrepCharacterized(s: string, f: TagFilter)
    requires s != "" && WellFormedFilter(f) && FilterText(f) == s
    ensures ParseTagsGrep(Some(s)) == f
  {
    ParseFilterText(f);
  }
}
