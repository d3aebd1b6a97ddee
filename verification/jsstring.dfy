/** The few JavaScript string operations the grep filter relies on:
    `trim`, `startsWith`, `includes` and `split` on a one-character
    separator, together with `join`, the inverse of `split`. */
module JsString {

  /** A character that `String.prototype.trim` strips: the ECMAScript
      WhiteSpace and LineTerminator code points.  Only the worked examples
      depend on which characters are in this set, and only on ASCII letters
      and `-` not being in it. */
  predicate IsWs(c: char) {
    var n := c as int;
    || n == 0x09 || n == 0x0A || n == 0x0B || n == 0x0C || n == 0x0D
    || n == 0x20 || n == 0xA0 || n == 0x1680
    || (0x2000 <= n <= 0x200A)
    || n == 0x2028 || n == 0x2029 || n == 0x202F || n == 0x205F
    || n == 0x3000 || n == 0xFEFF
  }

  ghost predicate AllWs(s: string) {
    forall k :: 0 <= k < |s| ==> IsWs(s[k])
  }

  /** Neither the first nor the last character is whitespace. */
  predicate NoEdgeWs(s: string) {
    |s| == 0 || (!IsWs(s[0]) && !IsWs(s[|s| - 1]))
  }

  /** `s` is `r` with whitespace-only padding on either side. */
  ghost predicate PaddedBy(s: string, r: string) {
    exists a, b :: AllWs(a) && AllWs(b) && s == a + r + b
  }

  /** Strips the maximal whitespace prefix. */
  function TrimStart(s: string): (r: string)
    ensures |r| <= |s| && r == s[|s| - |r|..]
    ensures forall k :: 0 <= k < |s| - |r| ==> IsWs(s[k])
    ensures |r| == 0 || !IsWs(r[0])
    decreases |s|
  {
    if |s| > 0 && IsWs(s[0]) then
      var r := TrimStart(s[1..]);
      assert forall k :: 1 <= k < |s| ==> s[k] == s[1..][k - 1];
      r
    else
      s
  }

  /** Strips the maximal whitespace suffix. */
  function TrimEnd(s: string): (r: string)
    ensures |r| <= |s| && r == s[..|r|]
    ensures forall k :: |r| <= k < |s| ==> IsWs(s[k])
    ensures |r| == 0 || !IsWs(r[|r| - 1])
    decreases |s|
  {
    if |s| > 0 && IsWs(s[|s| - 1]) then
      var r := TrimEnd(s[..|s| - 1]);
      assert forall k :: 0 <= k < |s| - 1 ==> s[k] == s[..|s| - 1][k];
      r
    else
      s
  }

  /** `String.prototype.trim`. */
  function Trim(s: string): (r: string)
    ensures NoEdgeWs(r)
    ensures PaddedBy(s, r)
  {
    TrimPadding(s);
    TrimEnd(TrimStart(s))
  }

  /** What `TrimStart` and `TrimEnd` strip is whitespace on either side. */
  lemma {:induction false} TrimPadding(s: string)
    ensures PaddedBy(s, TrimEnd(TrimStart(s)))
  {
    var t := TrimStart(s);
    var r := TrimEnd(t);
    var a := s[..|s| - |t|];
    var b := t[|r|..];
    assert AllWs(a) by {
      forall k | 0 <= k < |a| ensures IsWs(a[k]) { assert a[k] == s[k]; }
    }
    assert AllWs(b) by {
      forall k | 0 <= k < |b| ensures IsWs(b[k]) { assert b[k] == t[|r| + k]; }
    }
    SplitAt(s, |s| - |t|);
    SplitAt(t, |r|);
    PaddedIntro(s, a, r, b);
  }

  lemma {:induction false} SplitAt(s: string, i: nat)
    requires i <= |s|
    ensures s == s[..i] + s[i..]
  {
  }

  lemma {:induction false} PaddedIntro(s: string, a: string, r: string, b: string)
    requires AllWs(a) && AllWs(b) && s == a + (r + b)
    ensures PaddedBy(s, r)
  {
  }

  /** Where a padded core without edge whitespace starts and ends in the
      padded string: everything before it is whitespace, its first and last
      characters are not. */
  lemma {:induction false} CoreBounds(s: string, a: string, r: string, b: string)
    requires AllWs(a) && AllWs(b) && s == a + r + b && NoEdgeWs(r)
    ensures forall k :: 0 <= k < |a| ==> IsWs(s[k])
    ensures forall k :: |a| + |r| <= k < |s| ==> IsWs(s[k])
    ensures |r| == 0 <==> AllWs(s)
    ensures |r| > 0 ==> !IsWs(s[|a|]) && !IsWs(s[|a| + |r| - 1])
  {
    forall k | 0 <= k < |a|
      ensures IsWs(s[k])
    {
      assert s[k] == a[k];
    }
    forall k | |a| + |r| <= k < |s|
      ensures IsWs(s[k])
    {
      assert s[k] == b[k - |a| - |r|];
    }
    if |r| > 0 {
      assert s[|a|] == r[0];
      assert s[|a| + |r| - 1] == r[|r| - 1];
    }
  }

  /** The whitespace padding of a string is determined by the string: there
      is only one core without edge whitespace that it pads. */
  lemma {:induction false} PaddedCoreUnique(s: string, r1: string, r2: string)
    requires PaddedBy(s, r1) && NoEdgeWs(r1)
    requires PaddedBy(s, r2) && NoEdgeWs(r2)
    ensures r1 == r2
  {
    var a1, b1 :| AllWs(a1) && AllWs(b1) && s == a1 + r1 + b1;
    var a2, b2 :| AllWs(a2) && AllWs(b2) && s == a2 + r2 + b2;
    CoreBounds(s, a1, r1, b1);
    CoreBounds(s, a2, r2, b2);
    if |r1| > 0 {
      assert |a1| == |a2|;
      assert |a1| + |r1| == |a2| + |r2|;
      assert r1 == s[|a1|..|a1| + |r1|];
    }
  }

  /** `Trim` agrees with its declarative definition: the one core without
      edge whitespace that the input pads. */
  lemma {:induction false} TrimCharacterized(s: string, r: string)
    requires PaddedBy(s, r) && NoEdgeWs(r)
    ensures Trim(s) == r
  {
    PaddedCoreUnique(s, Trim(s), r);
  }

  lemma {:induction false} PaddedSelf(t: string)
    ensures PaddedBy(t, t)
  {
    assert t == [] + (t + []);
    PaddedIntro(t, [], t, []);
  }

  /** A string without edge whitespace is its own trim. */
  lemma {:induction false} TrimOfTrimmed(s: string)
    requires NoEdgeWs(s)
    ensures Trim(s) == s
  {
    PaddedSelf(s);
    TrimCharacterized(s, s);
  }

  /** Only an all-whitespace string trims to the empty string. */
  lemma {:induction false} TrimEmptyIffBlank(s: string)
    ensures Trim(s) == "" <==> AllWs(s)
  {
    var r := Trim(s);
    var a, b :| AllWs(a) && AllWs(b) && s == a + r + b;
    CoreBounds(s, a, r, b);
  }

  /** Trimming is idempotent. */
  lemma {:induction false} TrimIdempotent(s: string)
    ensures Trim(Trim(s)) == Trim(s)
  {
    TrimOfTrimmed(Trim(s));
  }

  /** `sub` occurs in `s` starting at index `i`. */
  predicate OccursAt(s: string, sub: string, i: int) {
    0 <= i && i + |sub| <= |s| && s[i..i + |sub|] == sub
  }

  /** `String.prototype.includes`: contiguous-substring containment.  The
      empty string is included everywhere, and a string of the same length
      is included only when it is equal. */
  predicate Includes(s: string, sub: string): (b: bool)
    ensures b ==> |sub| <= |s|
    ensures |sub| == 0 ==> b
    ensures |sub| == |s| ==> (b <==> s == sub)
  {
    assert |sub| == 0 ==> OccursAt(s, sub, 0);
    assert |sub| == |s| && s == sub ==> OccursAt(s, sub, 0);
    exists i | 0 <= i <= |s| - |sub| :: OccursAt(s, sub, i)
  }

  /** `Includes` agrees with its declarative definition: `s` is some prefix,
      then `sub`, then some suffix. */
  lemma {:induction false} IncludesAsConcat(s: string, sub: string)
    ensures Includes(s, sub) <==> exists p, q :: s == p + sub + q
  {
    if Includes(s, sub) {
      var i :| 0 <= i <= |s| - |sub| && OccursAt(s, sub, i);
      var p, q := s[..i], s[i + |sub|..];
      assert s == p + sub + q;
    }
    if exists p, q :: s == p + sub + q {
      var p, q :| s == p + sub + q;
      assert OccursAt(s, sub, |p|);
    }
  }

  /** The empty string is included in every string. */
  lemma {:induction false} IncludesEmpty(s: string)
    ensures Includes(s, "")
  {
    assert OccursAt(s, "", 0);
  }

  /** A string that lacks one of the characters of `sub` does not include
      `sub`. */
  lemma {:induction false} NotIncludesMissingChar(s: string, sub: string, c: char)
    requires c in sub && c !in s
    ensures !Includes(s, sub)
  {
  }

  /** Number of occurrences of `c` in `s`. */
  function Count(s: string, c: char): nat
    decreases |s|
  {
    if |s| == 0 then 0 else (if s[0] == c then 1 else 0) + Count(s[1..], c)
  }

  /** `String.prototype.split` with a one-character separator: the pieces
      between separators, in order.  Like JavaScript, the empty string
      splits into one empty piece. */
  function Split(s: string, sep: char): (parts: seq<string>)
    ensures |parts| == Count(s, sep) + 1
    ensures forall i :: 0 <= i < |parts| ==> sep !in parts[i]
    decreases |s|
  {
    if |s| == 0 then
      [""]
    else
      var rest := Split(s[1..], sep);
      if s[0] == sep then
        [""] + rest
      else
        [[s[0]] + rest[0]] + rest[1..]
  }

  /** `Array.prototype.join`: the pieces with `sep` between each pair. */
  function Join(parts: seq<string>, sep: char): string
    requires |parts| >= 1
    decreases |parts|
  {
    if |parts| == 1 then parts[0] else parts[0] + [sep] + Join(parts[1..], sep)
  }

  /** `pieces` is a decomposition of `s` at every occurrence of `sep`. */
  ghost predicate IsSplitOf(pieces: seq<string>, s: string, sep: char) {
    && |pieces| >= 1
    && (forall i :: 0 <= i < |pieces| ==> sep !in pieces[i])
    && Join(pieces, sep) == s
  }

  /** Joining the pieces of a split gives back the input. */
  lemma {:induction false} JoinSplit(s: string, sep: char)
    ensures Join(Split(s, sep), sep) == s
    decreases |s|
  {
    if |s| > 0 {
      var rest := Split(s[1..], sep);
      JoinSplit(s[1..], sep);
      if s[0] == sep {
        assert Split(s, sep) == [""] + rest;
        assert ([""] + rest)[1..] == rest;
        assert s == [s[0]] + s[1..];
      } else {
        var parts := Split(s, sep);
        assert parts == [[s[0]] + rest[0]] + rest[1..];
        if |rest| == 1 {
          assert s == [s[0]] + s[1..];
        } else {
          assert parts[1..] == rest[1..];
          assert Join(rest, sep) == rest[0] + [sep] + Join(rest[1..], sep);
          assert s == [s[0]] + s[1..];
        }
      }
    }
  }

  /** A separator-free prefix extends the first piece of a split. */
  lemma {:induction false} SplitFreePrefix(p: string, t: string, sep: char)
    requires sep !in p
    ensures Split(p + t, sep) == [p + Split(t, sep)[0]] + Split(t, sep)[1..]
    decreases |p|
  {
    if |p| > 0 {
      assert (p + t)[1..] == p[1..] + t;
      assert (p + t)[0] == p[0];
      SplitFreePrefix(p[1..], t, sep);
      assert [p[0]] + (p[1..] + Split(t, sep)[0]) == p + Split(t, sep)[0];
    } else {
      assert p + t == t;
      assert p + Split(t, sep)[0] == Split(t, sep)[0];
      assert Split(t, sep) == [Split(t, sep)[0]] + Split(t, sep)[1..];
    }
  }

  /** Splitting a join of separator-free pieces gives back the pieces. */
  lemma {:induction false} SplitJoin(pieces: seq<string>, sep: char)
    requires |pieces| >= 1
    requires forall i :: 0 <= i < |pieces| ==> sep !in pieces[i]
    ensures Split(Join(pieces, sep), sep) == pieces
    decreases |pieces|
  {
    if |pieces| == 1 {
      SplitFreePrefix(pieces[0], "", sep);
      assert pieces[0] + "" == pieces[0];
    } else {
      var tail := Join(pieces[1..], sep);
      SplitJoin(pieces[1..], sep);
      assert Split([sep] + tail, sep) == [""] + Split(tail, sep);
      SplitFreePrefix(pieces[0], [sep] + tail, sep);
      assert pieces[0] + [sep] + tail == pieces[0] + ([sep] + tail);
      assert pieces[0] + "" == pieces[0];
      assert pieces == [pieces[0]] + pieces[1..];
    }
  }

  /** `Split` is the only decomposition of a string at its separators. */
  lemma {:induction false} SplitUnique(pieces: seq<string>, s: string, sep: char)
    requires IsSplitOf(pieces, s, sep)
    ensures Split(s, sep) == pieces
  {
    SplitJoin(pieces, sep);
  }

  /** A character absent from the input is absent from every piece of its
      split. */
  lemma {:induction false} NotInSplit(s: string, sep: char, c: char)
    requires c !in s
    ensures forall i :: 0 <= i < |Split(s, sep)| ==> c !in Split(s, sep)[i]
    decreases |s|
  {
    if |s| > 0 {
      assert c !in s[1..];
      NotInSplit(s[1..], sep, c);
    }
  }

  /** A character other than the separator occurs in a join only if it
      occurs in one of the pieces. */
  lemma {:induction false} NotInJoin(pieces: seq<string>, sep: char, c: char)
    requires |pieces| >= 1 && c != sep
    requires forall i :: 0 <= i < |pieces| ==> c !in pieces[i]
    ensures c !in Join(pieces, sep)
    decreases |pieces|
  {
    if |pieces| > 1 {
      NotInJoin(pieces[1..], sep, c);
    }
  }
}
