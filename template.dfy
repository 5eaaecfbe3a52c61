/** The page renderer of the `/add-project` handler: six placeholders of the
    page template, each replaced globally, one after the other, in a fixed
    order, every replacement working on the text the previous one produced. */
module Template {
  import opened Text

  const TitleToken: string := "{{TITLE}}"
  const ShortDescToken: string := "{{SHORT_DESC}}"
  const LongDescToken: string := "{{LONG_DESC}}"
  const ImagePathToken: string := "{{IMAGE_PATH}}"
  const GithubButtonToken: string := "{{GITHUB_BUTTON}}"
  const ItchButtonToken: string := "{{ITCH_BUTTON}}"

  /** The placeholders, in the order they are substituted. */
  const Tokens: seq<string> :=
    [TitleToken, ShortDescToken, LongDescToken, ImagePathToken, GithubButtonToken, ItchButtonToken]

  /** The text each placeholder is replaced by. */
  datatype Fills = Fills(
    title: string,
    shortDesc: string,
    longDesc: string,
    imagePath: string,
    githubButton: string,
    itchButton: string)

  /** The fills, listed in the order of Tokens. */
  function Values(f: Fills): (vs: seq<string>)
    ensures |vs| == |Tokens|
  {
    [f.title, f.shortDesc, f.longDesc, f.imagePath, f.githubButton, f.itchButton]
  }

  /** A double-brace-wrapped name with no brace inside. */
  predicate IsPlaceholder(tok: string) {
    && |tok| >= 4
    && tok[0] == '{' && tok[1] == '{'
    && tok[|tok| - 2] == '}' && tok[|tok| - 1] == '}'
    && forall i | 2 <= i < |tok| - 2 :: tok[i] != '{' && tok[i] != '}'
  }

  predicate DistinctPlaceholders(toks: seq<string>) {
    && (forall i | 0 <= i < |toks| :: IsPlaceholder(toks[i]))
    && (forall i, j | 0 <= i < j < |toks| :: toks[i] != toks[j])
  }

  lemma TokensAreDistinctPlaceholders()
    ensures DistinctPlaceholders(Tokens)
  {
    assert IsPlaceholder(TitleToken);
    assert IsPlaceholder(ShortDescToken);
    assert IsPlaceholder(LongDescToken);
    assert IsPlaceholder(ImagePathToken);
    assert IsPlaceholder(GithubButtonToken);
    assert IsPlaceholder(ItchButtonToken);
    assert ShortDescToken[2] != ImagePathToken[2];
  }

  /** The characters of an occurrence are those of the text at its place. */
  lemma OccurrenceChars(a: string, b: string, p: nat, k: nat)
    requires OccursAt(a, b, p) && k < |b|
    ensures a[p + k] == b[k]
  {
    assert a[p..p + |b|][k] == a[p + k];
  }

  /** One placeholder never occurs inside a different one. */
  lemma PlaceholderNesting(a: string, b: string)
    requires IsPlaceholder(a) && IsPlaceholder(b) && Contains(a, b)
    ensures a == b
  {
    var p: nat :| p <= |a| && OccursAt(a, b, p);
    OccurrenceChars(a, b, p, 0);
    OccurrenceChars(a, b, p, 1);
    assert a == a[0..|b|];
  }

  /** Text with no brace in it. */
  predicate BraceFree(s: string) {
    '{' !in s && '}' !in s
  }

  /** Two occurrences of placeholders never overlap unless they are one and
      the same occurrence: `{{` stands only at the start of a placeholder and
      `}}` only at its end. In particular a placeholder never overlaps
      itself, so every occurrence of it is one the left-to-right scan meets. */
  lemma PlaceholdersDoNotOverlap(s: string, p: string, q: string, i: nat, j: nat)
    requires IsPlaceholder(p) && IsPlaceholder(q) && OccursAt(s, p, i)
    requires i <= j < i + |p| && (i < j || p != q)
    ensures !OccursAt(s, q, j)
  {
    var d := j - i;
    if d >= 2 {
      OccurrenceChars(s, p, i, d);
      Mismatch(s, q, j, 0);
    } else if d == 1 {
      OccurrenceChars(s, p, i, 2);
      Mismatch(s, q, j, 1);
    } else if |q| < |p| {
      var k := if |q| < |p| - 1 then |q| - 1 else |q| - 2;
      OccurrenceChars(s, p, i, k);
      Mismatch(s, q, j, k);
    } else if |q| > |p| {
      var k := if |p| < |q| - 1 then |p| - 1 else |p| - 2;
      OccurrenceChars(s, p, i, k);
      Mismatch(s, q, j, k);
    } else {
      var k :| 0 <= k < |p| && p[k] != q[k];
      OccurrenceChars(s, p, i, k);
      Mismatch(s, q, j, k);
    }
  }

  /** No placeholder starts inside brace-free text. */
  lemma NoPlaceholderInBraceFree(a: string, rest: string, tok: string)
    requires BraceFree(a) && IsPlaceholder(tok)
    ensures forall i | 0 <= i < |a| :: !OccursAt(a + rest, tok, i)
  {
    forall i | 0 <= i < |a| ensures !OccursAt(a + rest, tok, i) {
      assert (a + rest)[i] == a[i];
      Mismatch(a + rest, tok, i, 0);
    }
  }

  lemma BraceFreeLacksPlaceholder(s: string, tok: string)
    requires BraceFree(s) && IsPlaceholder(tok)
    ensures !Contains(s, tok)
  {
    NoPlaceholderInBraceFree(s, [], tok);
    assert s + [] == s;
  }

  /** An occurrence of a placeholder at the start of `x + b`, with `b`
      brace-free, lies within `x`: its closing brace cannot be in `b`. */
  lemma NoStraddle(x: string, b: string, tok: string)
    requires BraceFree(b) && IsPlaceholder(tok) && !OccursAt(x, tok, 0)
    ensures !OccursAt(x + b, tok, 0)
  {
    if |x| < |tok| <= |x + b| {
      assert (x + b)[|tok| - 1] == b[|tok| - 1 - |x|];
      Mismatch(x + b, tok, 0, |tok| - 1);
    } else if |tok| <= |x| {
      assert (x + b)[..|tok|] == x[..|tok|];
    }
  }

  /** Where no occurrence starts, copying the first character preserves
      "the suffix is copied". */
  lemma SuffixAfterCopy(x: string, b: string, tok: string, v: string)
    requires tok != [] && x != [] && !OccursAt(x, tok, 0) && !OccursAt(x + b, tok, 0)
    requires ReplaceAll(x[1..] + b, tok, v) == ReplaceAll(x[1..], tok, v) + b
    ensures ReplaceAll(x + b, tok, v) == ReplaceAll(x, tok, v) + b
  {
    var y := ReplaceAll(x[1..], tok, v);
    calc {
      ReplaceAll(x + b, tok, v);
      { ReplaceAllCopiesHead(x + b, tok, v); }
      [(x + b)[0]] + ReplaceAll((x + b)[1..], tok, v);
      { assert (x + b)[0] == x[0] && (x + b)[1..] == x[1..] + b; }
      [x[0]] + (y + b);
      ([x[0]] + y) + b;
      { ReplaceAllCopiesHead(x, tok, v); }
      ReplaceAll(x, tok, v) + b;
    }
  }

  /** Where an occurrence starts, replacing it preserves "the suffix is
      copied". */
  lemma SuffixAfterToken(x: string, b: string, tok: string, v: string)
    requires tok != [] && |x| >= |tok| && x[..|tok|] == tok
    requires ReplaceAll(x[|tok|..] + b, tok, v) == ReplaceAll(x[|tok|..], tok, v) + b
    ensures ReplaceAll(x + b, tok, v) == ReplaceAll(x, tok, v) + b
  {
    assert (x + b)[..|tok|] == tok;
    assert (x + b)[|tok|..] == x[|tok|..] + b;
  }

  /** Brace-free text after the scanned text is copied unchanged: no
      placeholder starts in it, and none that starts before it can end in it. */
  lemma {:induction false} ReplaceAllBraceFreeSuffix(x: string, b: string, tok: string, v: string)
    requires BraceFree(b) && IsPlaceholder(tok)
    ensures ReplaceAll(x + b, tok, v) == ReplaceAll(x, tok, v) + b
    decreases |x|
  {
    if x == [] {
      assert x + b == b;
      BraceFreeLacksPlaceholder(b, tok);
      ReplaceAllWithoutToken(b, tok, v);
    } else if |x| >= |tok| && x[..|tok|] == tok {
      ReplaceAllBraceFreeSuffix(x[|tok|..], b, tok, v);
      SuffixAfterToken(x, b, tok, v);
    } else {
      NoStraddle(x, b, tok);
      ReplaceAllBraceFreeSuffix(x[1..], b, tok, v);
      SuffixAfterCopy(x, b, tok, v);
    }
  }

  /** Applies the replacements `toks[i]` -> `vals[i]` one after the other. */
  function Substitute(t: string, toks: seq<string>, vals: seq<string>): string
    requires |toks| == |vals|
    requires forall i | 0 <= i < |toks| :: toks[i] != []
    decreases |toks|
  {
    if toks == [] then t
    else Substitute(ReplaceAll(t, toks[0], vals[0]), toks[1..], vals[1..])
  }

  /** The page: the template with its six placeholders substituted in turn. */
  function Render(template: string, f: Fills): string {
    Substitute(template, Tokens, Values(f))
  }

  /** Text without any of the placeholders passes through unchanged. */
  lemma {:induction false} SubstituteWithoutTokens(t: string, toks: seq<string>, vals: seq<string>)
    requires |toks| == |vals|
    requires forall i | 0 <= i < |toks| :: toks[i] != [] && !Contains(t, toks[i])
    ensures Substitute(t, toks, vals) == t
    decreases |toks|
  {
    if toks != [] {
      ReplaceAllWithoutToken(t, toks[0], vals[0]);
      SubstituteWithoutTokens(t, toks[1..], vals[1..]);
    }
  }

  /** The k-th placeholder alone becomes its value, and then only the
      replacements that come after it act on that value. */
  lemma {:induction false} SubstituteAtToken(toks: seq<string>, vals: seq<string>, k: nat)
    requires |toks| == |vals| && DistinctPlaceholders(toks) && k < |toks|
    ensures Substitute(toks[k], toks, vals) == Substitute(vals[k], toks[k + 1..], vals[k + 1..])
    decreases k
  {
    if k == 0 {
      ReplaceAllSelf(toks[0], vals[0]);
    } else {
      if Contains(toks[k], toks[0]) {
        PlaceholderNesting(toks[k], toks[0]);
        assert false;
      }
      ReplaceAllWithoutToken(toks[k], toks[0], vals[0]);
      assert DistinctPlaceholders(toks[1..]);
      SubstituteAtToken(toks[1..], vals[1..], k - 1);
      assert toks[1..][k - 1] == toks[k] && toks[1..][k..] == toks[k + 1..];
      assert vals[1..][k - 1] == vals[k] && vals[1..][k..] == vals[k + 1..];
    }
  }

  /** Placeholder j, met by the replacements after an earlier one i,
      becomes what it becomes in the whole chain. */
  lemma SubstituteLaterToken(toks: seq<string>, vals: seq<string>, i: nat, j: nat)
    requires |toks| == |vals| && DistinctPlaceholders(toks) && i < j < |toks|
    ensures Substitute(toks[j], toks[i + 1..], vals[i + 1..]) == Substitute(vals[j], toks[j + 1..], vals[j + 1..])
  {
    var ts, vs := toks[i + 1..], vals[i + 1..];
    assert DistinctPlaceholders(ts);
    SubstituteAtToken(ts, vs, j - i - 1);
    assert ts[j - i - 1] == toks[j] && ts[j - i..] == toks[j + 1..];
    assert vs[j - i - 1] == vals[j] && vs[j - i..] == vals[j + 1..];
  }

  /** Brace-free text on either side of the substituted text is kept as it
      is: the replacements act on the middle alone. */
  lemma {:induction false} SubstituteInContext(a: string, x: string, b: string, toks: seq<string>, vals: seq<string>)
    requires |toks| == |vals| && forall i | 0 <= i < |toks| :: toks[i] != [] && IsPlaceholder(toks[i])
    requires BraceFree(a) && BraceFree(b)
    ensures Substitute(a + x + b, toks, vals) == a + Substitute(x, toks, vals) + b
    decreases |toks|
  {
    if toks != [] {
      var t, v := toks[0], vals[0];
      NoPlaceholderInBraceFree(a, x + b, t);
      SkipPrefix(a, x + b, t, v);
      ReplaceAllBraceFreeSuffix(x, b, t, v);
      var y := ReplaceAll(x, t, v);
      SubstituteInContext(a, y, b, toks[1..], vals[1..]);
      calc {
        Substitute(a + x + b, toks, vals);
        { assert a + x + b == a + (x + b); }
        Substitute(a + (y + b), toks[1..], vals[1..]);
        { assert a + (y + b) == a + y + b; }
        a + Substitute(y, toks[1..], vals[1..]) + b;
      }
    }
  }

  /** A template holding none of the six placeholders is returned as it is. */
  lemma RenderWithoutPlaceholders(template: string, f: Fills)
    requires forall i | 0 <= i < |Tokens| :: !Contains(template, Tokens[i])
    ensures Render(template, f) == template
  {
    SubstituteWithoutTokens(template, Tokens, Values(f));
  }

  /** Placeholder k becomes its value, exposed to the later replacements
      only: a value is never rescanned for its own placeholder or an
      earlier one. */
  lemma RenderPlaceholder(f: Fills, k: nat)
    requires k < |Tokens|
    ensures Render(Tokens[k], f) == Substitute(Values(f)[k], Tokens[k + 1..], Values(f)[k + 1..])
  {
    TokensAreDistinctPlaceholders();
    SubstituteAtToken(Tokens, Values(f), k);
  }

  /** A later placeholder inside an earlier value is expanded, exactly as if
      it had stood in the template (`Play {{ITCH_BUTTON}} now` as a title
      puts the Itch.io button in the page). */
  lemma LaterPlaceholderInValueExpands(f: Fills, i: nat, j: nat, a: string, b: string)
    requires i < j < |Tokens| && Values(f)[i] == a + Tokens[j] + b
    requires BraceFree(a) && BraceFree(b)
    ensures Render(Tokens[i], f) == a + Render(Tokens[j], f) + b
  {
    TokensAreDistinctPlaceholders();
    var ts, vs := Tokens[i + 1..], Values(f)[i + 1..];
    RenderPlaceholder(f, i);
    SubstituteInContext(a, Tokens[j], b, ts, vs);
    SubstituteLaterToken(Tokens, Values(f), i, j);
    RenderPlaceholder(f, j);
  }

  /** The same or an earlier placeholder inside a value stays literally in
      the page (`{{TITLE}}` inside the Itch.io link is not expanded). */
  lemma EarlierPlaceholderInValueStays(f: Fills, i: nat, j: nat, a: string, b: string)
    requires j <= i < |Tokens| && Values(f)[i] == a + Tokens[j] + b
    requires BraceFree(a) && BraceFree(b)
    ensures Render(Tokens[i], f) == Values(f)[i]
  {
    TokensAreDistinctPlaceholders();
    RenderPlaceholder(f, i);
    var toks, vs := Tokens[i + 1..], Values(f)[i + 1..];
    forall k | 0 <= k < |toks| ensures toks[k] != [] && !Contains(Tokens[j], toks[k]) {
      assert toks[k] == Tokens[i + 1 + k];
      if Contains(Tokens[j], toks[k]) {
        PlaceholderNesting(Tokens[j], toks[k]);
        assert false;
      }
    }
    SubstituteWithoutTokens(Tokens[j], toks, vs);
    SubstituteInContext(a, Tokens[j], b, toks, vs);
  }

  /** The last replacement's value reaches the page verbatim. */
  lemma ItchButtonVerbatim(f: Fills)
    ensures Render(ItchButtonToken, f) == f.itchButton
  {
    RenderPlaceholder(f, 5);
  }

  /** A placeholder with brace-free text around it in the template renders
      as that text around the placeholder's own rendering. */
  lemma RenderInContext(a: string, k: nat, b: string, f: Fills)
    requires BraceFree(a) && BraceFree(b) && k < |Tokens|
    ensures Render(a + Tokens[k] + b, f) == a + Render(Tokens[k], f) + b
  {
    TokensAreDistinctPlaceholders();
    SubstituteInContext(a, Tokens[k], b, Tokens, Values(f));
  }

  /** The chunks written one after the other. */
  function Concat(cs: seq<string>): string {
    if cs == [] then [] else cs[0] + Concat(cs[1..])
  }

  /** A template cut into chunks, each brace-free text or a placeholder. */
  predicate Chunked(cs: seq<string>) {
    forall i | 0 <= i < |cs| :: BraceFree(cs[i]) || IsPlaceholder(cs[i])
  }

  /** What a chunk becomes: the value of the first token it equals, or the
      chunk itself when it is none of them. */
  function FillChunk(c: string, toks: seq<string>, vals: seq<string>): string
    requires |toks| == |vals|
    decreases |toks|
  {
    if toks == [] then c
    else if c == toks[0] then vals[0]
    else FillChunk(c, toks[1..], vals[1..])
  }

  function FillChunks(cs: seq<string>, toks: seq<string>, vals: seq<string>): seq<string>
    requires |toks| == |vals|
  {
    seq(|cs|, i requires 0 <= i < |cs| => FillChunk(cs[i], toks, vals))
  }

  function ReplaceChunks(cs: seq<string>, tok: string, v: string): seq<string>
    requires tok != []
  {
    seq(|cs|, i requires 0 <= i < |cs| => ReplaceAll(cs[i], tok, v))
  }

  /** No occurrence of a placeholder starts inside a chunk other than that
      placeholder itself. */
  lemma NoOccurrenceInChunk(c: string, rest: string, tok: string)
    requires (BraceFree(c) || IsPlaceholder(c)) && IsPlaceholder(tok) && c != tok
    ensures forall i | 0 <= i < |c| :: !OccursAt(c + rest, tok, i)
  {
    if BraceFree(c) {
      NoPlaceholderInBraceFree(c, rest, tok);
    } else {
      assert (c + rest)[..|c|] == c;
      forall i | 0 <= i < |c| ensures !OccursAt(c + rest, tok, i) {
        PlaceholdersDoNotOverlap(c + rest, c, tok, 0, i);
      }
    }
  }

  /** Replacing a placeholder in a chunk and what follows it is replacing it
      in each separately; the chunk becomes the value if it is the
      placeholder and stays as it is otherwise. */
  lemma ChunkBoundary(c: string, rest: string, tok: string, v: string)
    requires (BraceFree(c) || IsPlaceholder(c)) && IsPlaceholder(tok)
    ensures ReplaceAll(c + rest, tok, v) == ReplaceAll(c, tok, v) + ReplaceAll(rest, tok, v)
    ensures ReplaceAll(c, tok, v) == if c == tok then v else c
  {
    if c == tok {
      ReplaceAllLeadingToken(tok, rest, v);
      ReplaceAllSelf(tok, v);
    } else {
      NoOccurrenceInChunk(c, rest, tok);
      SkipPrefix(c, rest, tok, v);
      NoOccurrenceInChunk(c, [], tok);
      assert c + [] == c;
      SkipPrefix(c, [], tok, v);
    }
  }

  /** In chunked text a placeholder is replaced chunk by chunk: no occurrence
      spans two chunks. */
  lemma {:induction false} ReplaceAllChunks(cs: seq<string>, tok: string, v: string)
    requires Chunked(cs) && IsPlaceholder(tok)
    ensures ReplaceAll(Concat(cs), tok, v) == Concat(ReplaceChunks(cs, tok, v))
    decreases |cs|
  {
    if cs != [] {
      ChunkBoundary(cs[0], Concat(cs[1..]), tok, v);
      ReplaceAllChunks(cs[1..], tok, v);
      assert ReplaceChunks(cs, tok, v)[1..] == ReplaceChunks(cs[1..], tok, v);
    }
  }

  /** Brace-free text is none of the placeholders. */
  lemma {:induction false} FillBraceFree(v: string, toks: seq<string>, vals: seq<string>)
    requires |toks| == |vals| && BraceFree(v)
    requires forall i | 0 <= i < |toks| :: IsPlaceholder(toks[i])
    ensures FillChunk(v, toks, vals) == v
    decreases |toks|
  {
    if toks != [] {
      assert toks[0][0] == '{';
      FillBraceFree(v, toks[1..], vals[1..]);
    }
  }

  /** A chunked template with brace-free values is substituted chunk by
      chunk: each placeholder chunk becomes its value, all else is kept. */
  lemma {:induction false} SubstituteChunks(cs: seq<string>, toks: seq<string>, vals: seq<string>)
    requires |toks| == |vals| && Chunked(cs)
    requires forall i | 0 <= i < |toks| :: toks[i] != [] && IsPlaceholder(toks[i]) && BraceFree(vals[i])
    ensures Substitute(Concat(cs), toks, vals) == Concat(FillChunks(cs, toks, vals))
    decreases |toks|
  {
    if toks == [] {
      assert FillChunks(cs, toks, vals) == cs;
    } else {
      var t, v := toks[0], vals[0];
      var rs := ReplaceChunks(cs, t, v);
      ReplaceAllChunks(cs, t, v);
      forall i | 0 <= i < |cs| ensures rs[i] == if cs[i] == t then v else cs[i] {
        ChunkBoundary(cs[i], [], t, v);
      }
      SubstituteChunks(rs, toks[1..], vals[1..]);
      forall i | 0 <= i < |cs| ensures FillChunk(rs[i], toks[1..], vals[1..]) == FillChunk(cs[i], toks, vals) {
        if cs[i] == t {
          FillBraceFree(v, toks[1..], vals[1..]);
        }
      }
      assert FillChunks(rs, toks[1..], vals[1..]) == FillChunks(cs, toks, vals);
    }
  }

  lemma {:induction false} FillChunkBraceFree(c: string, toks: seq<string>, vals: seq<string>)
    requires |toks| == |vals| && (BraceFree(c) || c in toks)
    requires forall i | 0 <= i < |vals| :: BraceFree(vals[i])
    ensures BraceFree(FillChunk(c, toks, vals))
    decreases |toks|
  {
    if toks != [] && c != toks[0] {
      assert toks == [toks[0]] + toks[1..];
      FillChunkBraceFree(c, toks[1..], vals[1..]);
    }
  }

  lemma {:induction false} ConcatBraceFree(cs: seq<string>)
    requires forall i | 0 <= i < |cs| :: BraceFree(cs[i])
    ensures BraceFree(Concat(cs))
    decreases |cs|
  {
    if cs != [] {
      ConcatBraceFree(cs[1..]);
    }
  }

  /** A page template cut into brace-free text and placeholders renders
      chunk by chunk when the fills hold no brace: each of the six
      placeholders becomes its fill, every other chunk (an unknown
      placeholder included) is kept. */
  lemma RenderChunked(cs: seq<string>, f: Fills)
    requires Chunked(cs)
    requires forall k | 0 <= k < |Tokens| :: BraceFree(Values(f)[k])
    ensures Render(Concat(cs), f) == Concat(FillChunks(cs, Tokens, Values(f)))
  {
    TokensAreDistinctPlaceholders();
    SubstituteChunks(cs, Tokens, Values(f));
  }

  /** Each chunk substituted on its own. */
  function SubstituteEach(cs: seq<string>, toks: seq<string>, vals: seq<string>): seq<string>
    requires |toks| == |vals| && forall i | 0 <= i < |toks| :: toks[i] != []
  {
    seq(|cs|, i requires 0 <= i < |cs| => Substitute(cs[i], toks, vals))
  }

  /** The chunks after `tok` is replaced by a value cut into the chunks `g`. */
  function Expand(cs: seq<string>, tok: string, g: seq<string>): seq<string> {
    if cs == [] then [] else (if cs[0] == tok then g else [cs[0]]) + Expand(cs[1..], tok, g)
  }

  lemma {:induction false} ConcatAppend(xs: seq<string>, ys: seq<string>)
    ensures Concat(xs + ys) == Concat(xs) + Concat(ys)
    decreases |xs|
  {
    if xs == [] {
      assert xs + ys == ys;
    } else {
      assert (xs + ys)[1..] == xs[1..] + ys;
      ConcatAppend(xs[1..], ys);
    }
  }

  lemma SubstituteEachAppend(xs: seq<string>, ys: seq<string>, toks: seq<string>, vals: seq<string>)
    requires |toks| == |vals| && forall i | 0 <= i < |toks| :: toks[i] != []
    ensures Concat(SubstituteEach(xs + ys, toks, vals))
         == Concat(SubstituteEach(xs, toks, vals)) + Concat(SubstituteEach(ys, toks, vals))
  {
    assert SubstituteEach(xs + ys, toks, vals) == SubstituteEach(xs, toks, vals) + SubstituteEach(ys, toks, vals);
    ConcatAppend(SubstituteEach(xs, toks, vals), SubstituteEach(ys, toks, vals));
  }

  /** Replacing a placeholder in chunked text by a value made of chunks `g`
      gives the chunks with each occurrence of the placeholder spliced out
      for `g`. */
  lemma {:induction false} ExpandReplaces(cs: seq<string>, tok: string, g: seq<string>)
    requires Chunked(cs) && IsPlaceholder(tok)
    ensures ReplaceAll(Concat(cs), tok, Concat(g)) == Concat(Expand(cs, tok, g))
    decreases |cs|
  {
    if cs != [] {
      var head := if cs[0] == tok then g else [cs[0]];
      assert [cs[0]][1..] == [];
      ChunkBoundary(cs[0], Concat(cs[1..]), tok, Concat(g));
      ExpandReplaces(cs[1..], tok, g);
      ConcatAppend(head, Expand(cs[1..], tok, g));
    }
  }

  lemma {:induction false} ExpandChunked(cs: seq<string>, tok: string, g: seq<string>)
    requires Chunked(cs) && Chunked(g)
    ensures Chunked(Expand(cs, tok, g))
    decreases |cs|
  {
    if cs != [] {
      ExpandChunked(cs[1..], tok, g);
    }
  }

  /** One chunk: after the splice, the later replacements give what the
      whole chain gives the chunk. */
  lemma SpliceSubstituted(c: string, toks: seq<string>, vals: seq<string>, g: seq<string>)
    requires |toks| == |vals| && toks != [] && (BraceFree(c) || IsPlaceholder(c))
    requires forall i | 0 <= i < |toks| :: toks[i] != [] && IsPlaceholder(toks[i])
    requires Substitute(vals[0], toks[1..], vals[1..]) == Concat(SubstituteEach(g, toks[1..], vals[1..]))
    ensures Concat(SubstituteEach(if c == toks[0] then g else [c], toks[1..], vals[1..])) == Substitute(c, toks, vals)
  {
    ChunkBoundary(c, [], toks[0], vals[0]);
    if c != toks[0] {
      var one := SubstituteEach([c], toks[1..], vals[1..]);
      assert one == [Substitute(c, toks[1..], vals[1..])] && one[1..] == [];
    }
  }

  /** Substituting chunk by chunk: the first chunk, then the rest. */
  lemma SubstituteEachCons(cs: seq<string>, toks: seq<string>, vals: seq<string>)
    requires |toks| == |vals| && forall i | 0 <= i < |toks| :: toks[i] != []
    requires cs != []
    ensures Concat(SubstituteEach(cs, toks, vals)) == Substitute(cs[0], toks, vals) + Concat(SubstituteEach(cs[1..], toks, vals))
  {
    assert SubstituteEach(cs, toks, vals)[1..] == SubstituteEach(cs[1..], toks, vals);
  }

  /** The later replacements, applied chunk by chunk after the splice, give
      what the whole chain gives chunk by chunk before it, provided they act
      on the value chunk by chunk too. */
  lemma {:induction false} ExpandSubstituted(cs: seq<string>, toks: seq<string>, vals: seq<string>, g: seq<string>)
    requires |toks| == |vals| && toks != [] && Chunked(cs)
    requires forall i | 0 <= i < |toks| :: toks[i] != [] && IsPlaceholder(toks[i])
    requires Substitute(vals[0], toks[1..], vals[1..]) == Concat(SubstituteEach(g, toks[1..], vals[1..]))
    ensures Concat(SubstituteEach(Expand(cs, toks[0], g), toks[1..], vals[1..]))
         == Concat(SubstituteEach(cs, toks, vals))
    decreases |cs|
  {
    if cs != [] {
      var head := if cs[0] == toks[0] then g else [cs[0]];
      ExpandSubstituted(cs[1..], toks, vals, g);
      SubstituteEachAppend(head, Expand(cs[1..], toks[0], g), toks[1..], vals[1..]);
      SpliceSubstituted(cs[0], toks, vals, g);
      SubstituteEachCons(cs, toks, vals);
    }
  }

  /** A chunked template whose values (all but the last, which nothing
      rescans) are chunked too is substituted chunk by chunk, placeholders
      inside values included. */
  lemma {:induction false} SubstituteChunkedValues(cs: seq<string>, toks: seq<string>, vals: seq<string>, vcs: seq<seq<string>>)
    requires |toks| == |vals| == |vcs| && Chunked(cs)
    requires forall k | 0 <= k < |toks| :: toks[k] != [] && IsPlaceholder(toks[k])
    requires forall k | 0 <= k < |toks| - 1 :: Chunked(vcs[k]) && vals[k] == Concat(vcs[k])
    ensures Substitute(Concat(cs), toks, vals) == Concat(SubstituteEach(cs, toks, vals))
    decreases |toks|
  {
    if toks == [] {
      assert SubstituteEach(cs, toks, vals) == cs;
    } else if |toks| == 1 {
      ReplaceAllChunks(cs, toks[0], vals[0]);
      assert toks[1..] == [] && vals[1..] == [];
      forall i | 0 <= i < |cs| ensures Substitute(cs[i], toks, vals) == ReplaceAll(cs[i], toks[0], vals[0]) {
        assert Substitute(cs[i], toks, vals) == Substitute(ReplaceAll(cs[i], toks[0], vals[0]), [], []);
      }
      assert SubstituteEach(cs, toks, vals) == ReplaceChunks(cs, toks[0], vals[0]);
    } else {
      var t, g := toks[0], vcs[0];
      var r, rv, rg := toks[1..], vals[1..], vcs[1..];
      assert forall k | 0 <= k < |r| - 1 :: rg[k] == vcs[k + 1] && rv[k] == vals[k + 1];
      ExpandReplaces(cs, t, g);
      ExpandChunked(cs, t, g);
      SubstituteChunkedValues(Expand(cs, t, g), r, rv, rg);
      SubstituteChunkedValues(g, r, rv, rg);
      ExpandSubstituted(cs, toks, vals, g);
    }
  }

  /** A chunk that is none of the tokens passes through unchanged. */
  lemma {:induction false} ChunkKept(c: string, toks: seq<string>, vals: seq<string>)
    requires |toks| == |vals| && (BraceFree(c) || IsPlaceholder(c)) && c !in toks
    requires forall k | 0 <= k < |toks| :: toks[k] != [] && IsPlaceholder(toks[k])
    ensures Substitute(c, toks, vals) == c
    decreases |toks|
  {
    if toks != [] {
      ChunkBoundary(c, [], toks[0], vals[0]);
      assert toks == [toks[0]] + toks[1..];
      ChunkKept(c, toks[1..], vals[1..]);
    }
  }

  /** A page template cut into brace-free text and placeholders renders
      chunk by chunk whenever the first five fills are themselves brace-free
      text and placeholders: every chunk that is not one of the six
      placeholders is kept, and each placeholder renders as it does alone,
      a placeholder inside its fill expanded by the later replacements. */
  lemma RenderChunkedValues(cs: seq<string>, f: Fills, vcs: seq<seq<string>>)
    requires Chunked(cs) && |vcs| == |Tokens|
    requires forall k | 0 <= k < |Tokens| - 1 :: Chunked(vcs[k]) && Values(f)[k] == Concat(vcs[k])
    ensures Render(Concat(cs), f) == Concat(seq(|cs|, i requires 0 <= i < |cs| => Render(cs[i], f)))
    ensures forall i | 0 <= i < |cs| && cs[i] !in Tokens :: Render(cs[i], f) == cs[i]
  {
    TokensAreDistinctPlaceholders();
    SubstituteChunkedValues(cs, Tokens, Values(f), vcs);
    assert SubstituteEach(cs, Tokens, Values(f)) == seq(|cs|, i requires 0 <= i < |cs| => Render(cs[i], f));
    forall i | 0 <= i < |cs| && cs[i] !in Tokens ensures Render(cs[i], f) == cs[i] {
      ChunkKept(cs[i], Tokens, Values(f));
    }
  }

  lemma TokensArePlaceholders()
    ensures forall k | 0 <= k < |Tokens| :: Tokens[k] != [] && IsPlaceholder(Tokens[k])
  {
    TokensAreDistinctPlaceholders();
  }

  /** Brace-free text renders as itself. */
  lemma RenderBraceFree(t: string, f: Fills)
    requires BraceFree(t)
    ensures Render(t, f) == t
  {
    TokensAreDistinctPlaceholders();
    forall k | 0 <= k < |Tokens| ensures !Contains(t, Tokens[k]) {
      BraceFreeLacksPlaceholder(t, Tokens[k]);
    }
    RenderWithoutPlaceholders(t, f);
  }

  lemma ConcatThree(x: string, y: string, z: string)
    ensures Concat([x, y, z]) == x + y + z
  {
    var s1, s2, s3 := [z], [y, z], [x, y, z];
    assert s1[1..] == [] && Concat(s1) == z;
    assert s2[1..] == s1 && Concat(s2) == y + z;
    assert s3[1..] == s2;
  }

  lemma ConcatFour(w: string, x: string, y: string, z: string)
    ensures Concat([w, x, y, z]) == w + x + y + z
  {
    assert [w, x, y, z][1..] == [x, y, z];
    ConcatThree(x, y, z);
  }

  /** The fills of ValueThenLaterPlaceholder, cut into chunks. */
  lemma ValueHoldingPlaceholderChunks(f: Fills, i: nat, j: nat, a: string, b: string) returns (vcs: seq<seq<string>>)
    requires i < j < |Tokens| && Values(f)[i] == a + Tokens[j] + b && BraceFree(a) && BraceFree(b)
    requires forall k | 0 <= k < |Tokens| - 1 && k != i :: BraceFree(Values(f)[k])
    ensures |vcs| == |Tokens|
    ensures forall k | 0 <= k < |Tokens| - 1 :: Chunked(vcs[k]) && Values(f)[k] == Concat(vcs[k])
  {
    TokensArePlaceholders();
    ConcatThree(a, Tokens[j], b);
    vcs := seq(|Tokens|, k requires 0 <= k < |Tokens| => if k == i then [a, Tokens[j], b] else [Values(f)[k]]);
    forall k | 0 <= k < |Tokens| - 1 && k != i ensures Values(f)[k] == Concat(vcs[k]) {
      assert vcs[k][1..] == [];
    }
  }

  /** A page with placeholder i and then a later placeholder j, whose value i
      holds placeholder j, shows value j twice: once inside value i, once
      where the template puts it. */
  lemma ValueThenLaterPlaceholder(f: Fills, i: nat, j: nat, pre: string, mid: string, a: string, b: string)
    requires i < j < |Tokens| && Values(f)[i] == a + Tokens[j] + b
    requires BraceFree(pre) && BraceFree(mid) && BraceFree(a) && BraceFree(b)
    requires forall k | 0 <= k < |Tokens| - 1 && k != i :: BraceFree(Values(f)[k])
    ensures Render(pre + Tokens[i] + mid + Tokens[j], f)
         == pre + (a + Render(Tokens[j], f) + b) + mid + Render(Tokens[j], f)
  {
    var vcs := ValueHoldingPlaceholderChunks(f, i, j, a, b);
    var cs := [pre, Tokens[i], mid, Tokens[j]];
    TokensArePlaceholders();
    ConcatFour(pre, Tokens[i], mid, Tokens[j]);
    SubstituteChunkedValues(cs, Tokens, Values(f), vcs);
    LaterPlaceholderInValueExpands(f, i, j, a, b);
    RenderBraceFree(pre, f);
    RenderBraceFree(mid, f);
    var vi, vj := a + Render(Tokens[j], f) + b, Render(Tokens[j], f);
    assert SubstituteEach(cs, Tokens, Values(f)) == [pre, vi, mid, vj];
    ConcatFour(pre, vi, mid, vj);
  }

  /** A page with the title and then the Itch.io button, whose title holds
      `{{ITCH_BUTTON}}`, shows the button twice. */
  lemma TitleThenItchButton(f: Fills, pre: string, mid: string, a: string, b: string)
    requires BraceFree(pre) && BraceFree(mid) && BraceFree(a) && BraceFree(b)
    requires f.title == a + ItchButtonToken + b
    requires BraceFree(f.shortDesc) && BraceFree(f.longDesc) && BraceFree(f.imagePath) && BraceFree(f.githubButton)
    ensures Render(pre + TitleToken + mid + ItchButtonToken, f) == pre + (a + f.itchButton + b) + mid + f.itchButton
  {
    ValueThenLaterPlaceholder(f, 0, 5, pre, mid, a, b);
    ItchButtonVerbatim(f);
  }

  /** A template whose only braces are those of placeholders that are all
      substituted, filled with brace-free values, leaves no brace. */
  lemma SubstituteLeavesNoBrace(cs: seq<string>, toks: seq<string>, vals: seq<string>)
    requires |toks| == |vals|
    requires forall i | 0 <= i < |toks| :: toks[i] != [] && IsPlaceholder(toks[i]) && BraceFree(vals[i])
    requires forall i | 0 <= i < |cs| :: BraceFree(cs[i]) || cs[i] in toks
    ensures BraceFree(Substitute(Concat(cs), toks, vals))
  {
    forall i | 0 <= i < |cs| ensures BraceFree(cs[i]) || IsPlaceholder(cs[i]) {
      if !BraceFree(cs[i]) {
        var k :| 0 <= k < |toks| && toks[k] == cs[i];
      }
    }
    SubstituteChunks(cs, toks, vals);
    var fs := FillChunks(cs, toks, vals);
    forall i | 0 <= i < |fs| ensures BraceFree(fs[i]) {
      FillChunkBraceFree(cs[i], toks, vals);
    }
    ConcatBraceFree(fs);
  }

  /** When the template's only braces are those of the six placeholders and
      the fills hold no brace, the page holds no brace, so none of the six
      placeholders remains. */
  lemma RenderLeavesNoPlaceholder(cs: seq<string>, f: Fills)
    requires forall i | 0 <= i < |cs| :: BraceFree(cs[i]) || cs[i] in Tokens
    requires forall k | 0 <= k < |Tokens| :: BraceFree(Values(f)[k])
    ensures BraceFree(Render(Concat(cs), f))
    ensures forall k | 0 <= k < |Tokens| :: !Contains(Render(Concat(cs), f), Tokens[k])
  {
    TokensAreDistinctPlaceholders();
    var page := Render(Concat(cs), f);
    SubstituteLeavesNoBrace(cs, Tokens, Values(f));
    forall k | 0 <= k < |Tokens| ensures !Contains(page, Tokens[k]) {
      BraceFreeLacksPlaceholder(page, Tokens[k]);
    }
  }

  /** No occurrence of `{{TITLE}}` starts within the first four characters
      of `{{TI{{TITLE}}...`. */
  lemma TitleNotInPrefix(pre: string, rest: string, tok: string)
    requires pre == "{{TI" && tok == "{{TITLE}}" && |rest| >= |tok| && rest[..|tok|] == tok
    ensures forall i | 0 <= i < |pre| :: !OccursAt(pre + rest, tok, i)
  {
    Mismatch(pre + rest, tok, 0, 4);
    Mismatch(pre + rest, tok, 1, 3);
    Mismatch(pre + rest, tok, 2, 2);
    Mismatch(pre + rest, tok, 3, 0);
  }

  /** Deleting an occurrence can join two halves of another one: the value ""
      lacks `{{TITLE}}`, yet `{{TI{{TITLE}}TLE}}` becomes `{{TITLE}}`. */
  lemma TitleCanReform(pre: string, tok: string, post: string)
    requires pre == "{{TI" && tok == "{{TITLE}}" && post == "TLE}}"
    ensures tok == TitleToken && !Contains([], tok)
    ensures ReplaceAll(pre + tok + post, tok, []) == tok
  {
    var rest := tok + post;
    assert rest[..|tok|] == tok;
    TitleNotInPrefix(pre, rest, tok);
    SkipPrefix(pre, rest, tok, []);
    ReplaceAllLeadingToken(tok, post, []);
    assert pre + tok + post == pre + rest;
  }
}
