/** Literal, global string replacement: what `s.replace(/TOKEN/g, value)` does
    when TOKEN contains no regular-expression operators and value contains no
    `$` replacement pattern. */
module Text {

  /** `t` occurs in `s` starting at position `i`. */
  predicate OccursAt(s: string, t: string, i: nat) {
    i + |t| <= |s| && s[i..i + |t|] == t
  }

  predicate Contains(s: string, t: string) {
    exists i: nat | i <= |s| :: OccursAt(s, t, i)
  }

  /** An occurrence in the tail of `s` is an occurrence in `s`. */
  lemma ContainsTail(s: string, t: string)
    requires s != []
    ensures Contains(s[1..], t) ==> Contains(s, t)
  {
    if Contains(s[1..], t) {
      var i: nat :| i <= |s[1..]| && OccursAt(s[1..], t, i);
      assert i + |t| <= |s| - 1;
      assert s[1..][i..i + |t|] == s[i + 1..i + 1 + |t|];
      assert OccursAt(s, t, i + 1);
    }
  }

  /** An occurrence past the first character of `[c] + x` is one in `x`. */
  lemma OccursInTail(c: char, x: string, t: string, j: nat)
    requires j > 0 && OccursAt([c] + x, t, j)
    ensures OccursAt(x, t, j - 1)
  {
    assert ([c] + x)[j..j + |t|] == x[j - 1..j - 1 + |t|];
  }

  /** An occurrence in `x` is one in `[c] + x`, one place further on. */
  lemma OccursShift(c: char, x: string, t: string, j: nat)
    requires OccursAt(x, t, j)
    ensures OccursAt([c] + x, t, j + 1)
  {
    assert ([c] + x)[j + 1..j + 1 + |t|] == x[j..j + |t|];
  }

  /** Scans `s` left to right; every occurrence of `tok` that starts where the
      scan stands is replaced by `v` and the scan resumes after it, so the
      occurrences replaced never overlap and `v` itself is never rescanned. */
  function ReplaceAll(s: string, tok: string, v: string): string
    requires tok != []
    decreases |s|
  {
    if |s| < |tok| then s
    else if s[..|tok|] == tok then v + ReplaceAll(s[|tok|..], tok, v)
    else [s[0]] + ReplaceAll(s[1..], tok, v)
  }

  /** Replacing a token that does not occur leaves the text as it is. */
  lemma {:induction false} ReplaceAllWithoutToken(s: string, tok: string, v: string)
    requires tok != [] && !Contains(s, tok)
    ensures ReplaceAll(s, tok, v) == s
    decreases |s|
  {
    if |s| >= |tok| {
      assert !OccursAt(s, tok, 0);
      ContainsTail(s, tok);
      ReplaceAllWithoutToken(s[1..], tok, v);
    }
  }

  /** The stretches of `s` between the occurrences that ReplaceAll replaces,
      in order (`s.split(tok)` in JavaScript). */
  function Split(s: string, tok: string): (pieces: seq<string>)
    requires tok != []
    ensures |pieces| >= 1
    ensures |pieces[0]| <= |s| && pieces[0] == s[..|pieces[0]|]
    decreases |s|
  {
    if |s| < |tok| then [s]
    else if s[..|tok|] == tok then [[]] + Split(s[|tok|..], tok)
    else
      var rest := Split(s[1..], tok);
      [[s[0]] + rest[0]] + rest[1..]
  }

  /** The pieces with `sep` between each two neighbours. */
  function Join(pieces: seq<string>, sep: string): string
    requires |pieces| >= 1
  {
    if |pieces| == 1 then pieces[0] else pieces[0] + sep + Join(pieces[1..], sep)
  }

  /** Prepending a character to the first piece prepends it to the join. */
  lemma JoinPrepend(c: char, pieces: seq<string>, sep: string)
    requires |pieces| >= 1
    ensures Join([[c] + pieces[0]] + pieces[1..], sep) == [c] + Join(pieces, sep)
  {
    var ps := [[c] + pieces[0]] + pieces[1..];
    assert ps[1..] == pieces[1..];
  }

  /** Joining the pieces with the token gives back the original text. */
  lemma {:induction false} JoinSplit(s: string, tok: string)
    requires tok != []
    ensures Join(Split(s, tok), tok) == s
    decreases |s|
  {
    if |s| < |tok| {
    } else if s[..|tok|] == tok {
      JoinSplit(s[|tok|..], tok);
      var ps := [[]] + Split(s[|tok|..], tok);
      assert ps[1..] == Split(s[|tok|..], tok);
      assert s == tok + s[|tok|..];
    } else {
      JoinSplit(s[1..], tok);
      JoinPrepend(s[0], Split(s[1..], tok), tok);
      assert s == [s[0]] + s[1..];
    }
  }

  /** Replacing every occurrence is joining the pieces with the value. */
  lemma {:induction false} ReplaceAllIsJoin(s: string, tok: string, v: string)
    requires tok != []
    ensures ReplaceAll(s, tok, v) == Join(Split(s, tok), v)
    decreases |s|
  {
    if |s| < |tok| {
    } else if s[..|tok|] == tok {
      ReplaceAllIsJoin(s[|tok|..], tok, v);
      var ps := [[]] + Split(s[|tok|..], tok);
      assert ps[1..] == Split(s[|tok|..], tok);
    } else {
      ReplaceAllIsJoin(s[1..], tok, v);
      JoinPrepend(s[0], Split(s[1..], tok), v);
    }
  }

  /** No piece contains the token: every occurrence of `tok` in `s` lies in a
      stretch that ReplaceAll replaces (the replacement is global). */
  lemma {:induction false} SplitPiecesLackToken(s: string, tok: string)
    requires tok != []
    ensures forall k | 0 <= k < |Split(s, tok)| :: !Contains(Split(s, tok)[k], tok)
    decreases |s|
  {
    var ps := Split(s, tok);
    if |s| < |tok| {
      assert ps == [s];
    } else if s[..|tok|] == tok {
      SplitPiecesLackToken(s[|tok|..], tok);
      assert ps[1..] == Split(s[|tok|..], tok);
      assert !Contains(ps[0], tok);
    } else {
      var rest := Split(s[1..], tok);
      SplitPiecesLackToken(s[1..], tok);
      assert ps[1..] == rest[1..];
      var head := [s[0]] + rest[0];
      if Contains(head, tok) {
        var j: nat :| j <= |head| && OccursAt(head, tok, j);
        if j == 0 {
          // head is a prefix of s, so s would start with tok
          assert false;
        } else {
          // the occurrence would already be one in rest[0]
          OccursInTail(s[0], rest[0], tok, j);
          assert false;
        }
      }
    }
  }

  /** A character that is neither in the value nor left over when the token is
      deleted is not in the result. */
  lemma {:induction false} ReplaceAllLacksChar(s: string, tok: string, v: string, c: char)
    requires tok != []
    requires c !in v && c !in ReplaceAll(s, tok, [])
    ensures c !in ReplaceAll(s, tok, v)
    decreases |s|
  {
    if |s| < |tok| {
    } else if s[..|tok|] == tok {
      ReplaceAllLacksChar(s[|tok|..], tok, v, c);
    } else {
      assert ReplaceAll(s, tok, []) == [s[0]] + ReplaceAll(s[1..], tok, []);
      ReplaceAllLacksChar(s[1..], tok, v, c);
    }
  }

  /** A sufficient condition for no occurrence of the token to remain: some
      character of the token is absent from the value and from the text left
      when every occurrence is deleted. A value free of the token is not
      enough on its own (see Template.TitleCanReform). The condition is
      strong: while a page template still holds `{{LONG_DESC}}` or
      `{{IMAGE_PATH}}`, every character of `{{TITLE}}` is left over when
      `{{TITLE}}` is deleted. Template.RenderLeavesNoPlaceholder gives a
      condition on the whole template instead. */
  lemma ReplaceAllClearsToken(s: string, tok: string, v: string, c: char)
    requires tok != []
    requires c in tok && c !in v && c !in ReplaceAll(s, tok, [])
    ensures !Contains(ReplaceAll(s, tok, v), tok)
  {
    ReplaceAllLacksChar(s, tok, v, c);
  }

  /** A mismatch at offset `k` rules out an occurrence at `i`. */
  lemma Mismatch(s: string, tok: string, i: nat, k: nat)
    requires i + k < |s| && k < |tok| && s[i + k] != tok[k]
    ensures !OccursAt(s, tok, i)
  {
  }

  /** Where no occurrence starts, the first character is copied. */
  lemma ReplaceAllCopiesHead(s: string, tok: string, v: string)
    requires tok != [] && s != [] && !OccursAt(s, tok, 0)
    ensures ReplaceAll(s, tok, v) == [s[0]] + ReplaceAll(s[1..], tok, v)
  {
    if |s| >= |tok| {
      assert s[..|tok|] != tok;
    }
  }

  /** Dropping the first character keeps "no occurrence starts before
      position |pre|" for the rest of the prefix. */
  lemma NoOccurrenceInTail(pre: string, rest: string, tok: string)
    requires pre != []
    requires forall i | 0 <= i < |pre| :: !OccursAt(pre + rest, tok, i)
    ensures forall i | 0 <= i < |pre| - 1 :: !OccursAt(pre[1..] + rest, tok, i)
  {
    var x := pre[1..] + rest;
    assert pre + rest == [pre[0]] + x;
    forall i | 0 <= i < |pre| - 1 ensures !OccursAt(x, tok, i) {
      if OccursAt(x, tok, i) {
        OccursShift(pre[0], x, tok, i);
      }
    }
  }

  /** Text in front of which no occurrence starts is copied unchanged. */
  lemma {:induction false} SkipPrefix(pre: string, rest: string, tok: string, v: string)
    requires tok != []
    requires forall i | 0 <= i < |pre| :: !OccursAt(pre + rest, tok, i)
    ensures ReplaceAll(pre + rest, tok, v) == pre + ReplaceAll(rest, tok, v)
    decreases |pre|
  {
    if pre == [] {
      assert pre + rest == rest;
    } else {
      NoOccurrenceInTail(pre, rest, tok);
      SkipPrefix(pre[1..], rest, tok, v);
      ReplaceAllCopiesHead(pre + rest, tok, v);
      calc {
        ReplaceAll(pre + rest, tok, v);
        [pre[0]] + ReplaceAll((pre + rest)[1..], tok, v);
        { assert (pre + rest)[1..] == pre[1..] + rest; }
        [pre[0]] + ReplaceAll(pre[1..] + rest, tok, v);
        [pre[0]] + (pre[1..] + ReplaceAll(rest, tok, v));
        { assert pre == [pre[0]] + pre[1..]; }
        pre + ReplaceAll(rest, tok, v);
      }
    }
  }

  /** Text that starts with the token starts with the value after replacement. */
  lemma ReplaceAllLeadingToken(tok: string, rest: string, v: string)
    requires tok != []
    ensures ReplaceAll(tok + rest, tok, v) == v + ReplaceAll(rest, tok, v)
  {
    assert (tok + rest)[..|tok|] == tok && (tok + rest)[|tok|..] == rest;
  }

  /** Replacing a token in the token itself yields exactly the value. */
  lemma ReplaceAllSelf(tok: string, v: string)
    requires tok != []
    ensures ReplaceAll(tok, tok, v) == v
  {
    assert tok[..|tok|] == tok;
    assert tok[|tok|..] == [];
  }
}
