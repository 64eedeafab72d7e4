// The route pattern compiler of internal/service/proxy/route_parser.go: a glob is
// rewritten into regular expression text, which is then searched for in the path.

module RoutePattern {
  import opened Options
  import opened Strings

  // ----- the compiler, as written -----

  predicate Meta(c: char) { c in "\\.+*?()|[]{}^$" }

  function QuoteChar(c: char): string { if Meta(c) then ['\\', c] else [c] }

  /** Go's `regexp.QuoteMeta`. */
  function QuoteMeta(p: string): string {
    if p == "" then "" else QuoteChar(p[0]) + QuoteMeta(p[1..])
  }

  /** The length of the longest front without a slash, what `[^/]+` takes when it is greedy. */
  function SegmentLength(s: string): nat {
    if s == "" || s[0] == '/' then 0 else 1 + SegmentLength(s[1..])
  }

  /** A match of the expression `\\/:([^/]+)` at the front: backslash, slash, colon, a segment. */
  predicate PlaceholderAt(s: string) {
    |s| > 3 && s[0] == '\\' && s[1] == '/' && s[2] == ':' && s[3] != '/'
  }

  /** `ReplaceAllString` of that expression by `/[^/]+`. */
  function RewritePlaceholders(s: string): string
    decreases |s|
  {
    if s == "" then ""
    else if PlaceholderAt(s) then
      SegmentFits(s[3..]);
      "/[^/]+" + RewritePlaceholders(s[3 + SegmentLength(s[3..])..])
    else [s[0]] + RewritePlaceholders(s[1..])
  }

  lemma SegmentFits(s: string)
    ensures SegmentLength(s) <= |s|
    ensures forall i | 0 <= i < SegmentLength(s) :: s[i] != '/'
    ensures SegmentLength(s) < |s| ==> s[SegmentLength(s)] == '/'
  {
  }

  function PatternToRegex(pattern: string): string {
    var pattern := QuoteMeta(pattern);
    var pattern := ReplaceAll(pattern, "\\*", ".*");
    var pattern := RewritePlaceholders(pattern);
    if HasSuffix(pattern, "$") then pattern else pattern + "$"
  }

  // ----- the regular expressions it emits -----

  datatype Token = Lit(c: char) | AnyRun | Segment | End

  /** Punctuation that a backslash may escape. */
  predicate Punctuation(c: char) {
    '!' <= c <= '/' || ':' <= c <= '@' || '[' <= c <= '`' || '{' <= c <= '~'
  }

  /** The characters that mean something else than themselves in a regular expression. */
  predicate Operator(c: char) {
    || c == '\\' || c == '.' || c == '+' || c == '*' || c == '?' || c == '^' || c == '$' || c == '|'
    || c == '(' || c == ')' || c == '[' || c == ']' || c == '{' || c == '}'
  }

  /**
   * The fragment of Go's syntax made of literals, escaped punctuation, `.*`, `[^/]+` and `$`;
   * `None` for text outside the fragment.
   */
  function Parse(text: string): Option<seq<Token>>
    decreases |text|
  {
    if text == "" then Some([])
    else if text[0] == '\\' then
      if |text| > 1 && Punctuation(text[1]) then Prepend(Lit(text[1]), Parse(text[2..])) else None
    else if text[0] == '.' then
      if |text| > 1 && text[1] == '*' then Prepend(AnyRun, Parse(text[2..])) else None
    else if text[0] == '[' then
      if "[^/]+" <= text then Prepend(Segment, Parse(text[5..])) else None
    else if text[0] == '$' then Prepend(End, Parse(text[1..]))
    else if Operator(text[0]) then None
    else Prepend(Lit(text[0]), Parse(text[1..]))
  }

  function Prepend(t: Token, ts: Option<seq<Token>>): Option<seq<Token>> {
    match ts
    case Some(rest) => Some([t] + rest)
    case None => None
  }

  /** The texts a wildcard may stand for: a dot never matches a newline, a segment has no slash and is not empty. */
  predicate Fills(g: Token, u: string) {
    match g
    case AnyRun => '\n' !in u
    case Segment => u != "" && '/' !in u
    case _ => false
  }

  /** The expression matches s[i..j]; `$` only matches at the end of the text. */
  predicate MatchesAt(ts: seq<Token>, s: string, i: nat, j: nat)
    decreases |ts|
  {
    if ts == [] then i == j <= |s|
    else
      match ts[0]
      case Lit(c) => i < |s| && s[i] == c && MatchesAt(ts[1..], s, i + 1, j)
      case End => i == |s| && MatchesAt(ts[1..], s, i, j)
      case g => exists k | i <= k <= |s| :: Fills(g, s[i..k]) && MatchesAt(ts[1..], s, k, j)
  }

  /** `regexp.MatchString`: an unanchored search; text that does not parse matches nothing. */
  predicate MatchString(regex: string, s: string) {
    match Parse(regex)
    case Some(ts) => exists i, j | 0 <= i <= j <= |s| :: MatchesAt(ts, s, i, j)
    case None => false
  }

  predicate MatchRoutePattern(pattern: string, path: string) {
    MatchString(PatternToRegex(pattern), path)
  }

  // ----- what a pattern means -----

  /** The pieces of a pattern, read from left to right. */
  function Pieces(p: string): seq<Token>
    decreases |p|
  {
    if p == "" then []
    else if PlaceholderAt(p) then
      SegmentFits(p[3..]);
      [Lit('/'), Segment] + Pieces(p[3 + SegmentLength(p[3..])..])
    else if p[0] == '*' then [AnyRun] + Pieces(p[1..])
    else [Lit(p[0])] + Pieces(p[1..])
  }

  /** The whole text t fits the pieces. */
  predicate Glob(ts: seq<Token>, t: string)
    decreases |ts|
  {
    if ts == [] then t == ""
    else
      match ts[0]
      case Lit(c) => t != "" && t[0] == c && Glob(ts[1..], t[1..])
      case End => false
      case g => exists k | 0 <= k <= |t| :: Fills(g, t[..k]) && Glob(ts[1..], t[k..])
  }

  predicate EndsInDollar(ts: seq<Token>) {
    ts != [] && ts[|ts| - 1] == Lit('$')
  }

  /** Only a pattern whose last piece is a literal dollar sign gets no end anchor. */
  predicate Anchored(p: string) { !EndsInDollar(Pieces(p)) }

  // ----- the emitted text parses to the pieces -----

  function StarChar(c: char): string { if c == '*' then ".*" else QuoteChar(c) }

  function Starred(p: string): string {
    if p == "" then "" else StarChar(p[0]) + Starred(p[1..])
  }

  // One quoted character, before text that does not start with a star.
  lemma StarStep(c: char, rest: string)
    requires rest != "" ==> rest[0] != '*'
    ensures ReplaceAll(QuoteChar(c) + rest, "\\*", ".*") == StarChar(c) + ReplaceAll(rest, "\\*", ".*")
  {
    hide ReplaceAll;
    if c == '*' {
      StarHere(rest);
    } else {
      hide Meta;
      if Meta(c) {
        SkipPair('\\', c, rest, "\\*", ".*");
      } else {
        SkipFront([c] + rest, "\\*", ".*");
        assert ([c] + rest)[1..] == rest;
      }
    }
  }

  lemma StarHere(rest: string)
    ensures ReplaceAll(QuoteChar('*') + rest, "\\*", ".*") == ".*" + ReplaceAll(rest, "\\*", ".*")
  {
    var q := QuoteChar('*') + rest;
    assert q[2..] == rest && "\\*" <= q;
  }

  lemma SkipPair(a: char, b: char, rest: string, from: string, to: string)
    requires |from| == 2 && !(a == from[0] && b == from[1])
    requires b == from[0] && rest != "" ==> rest[0] != from[1]
    ensures ReplaceAll([a, b] + rest, from, to) == [a, b] + ReplaceAll(rest, from, to)
  {
    hide ReplaceAll;
    var q := [a, b] + rest;
    assert q[0] == a && q[1] == b && q[1..] == [b] + rest && q[1..][1..] == rest;
    SkipFront(q, from, to);
    SkipFront(q[1..], from, to);
    assert [a] + ([b] + ReplaceAll(rest, from, to)) == [a, b] + ReplaceAll(rest, from, to);
  }

  // The rewriting of `\*` finds exactly the quoted stars.
  lemma {:induction false} StarRewrite(p: string)
    ensures ReplaceAll(QuoteMeta(p), "\\*", ".*") == Starred(p)
    decreases |p|
  {
    if p == "" {
    } else {
      StarRewrite(p[1..]);
      StarStep(p[0], QuoteMeta(p[1..]));
    }
  }

  lemma {:induction false} StarredConcat(a: string, b: string)
    ensures Starred(a + b) == Starred(a) + Starred(b)
    decreases |a|
  {
    if a == "" {
      assert a + b == b;
    } else {
      assert (a + b)[1..] == a[1..] + b;
      StarredConcat(a[1..], b);
    }
  }

  // A slash or colon stands at the front of the quoted text exactly when it does in the pattern.
  lemma FrontOfStarred(q: string)
    ensures Starred(q) == "" <==> q == ""
    ensures q != "" ==> (Starred(q)[0] == '/' <==> q[0] == '/') && (Starred(q)[0] == ':' <==> q[0] == ':')
    ensures q != "" && (q[0] == '/' || q[0] == ':') ==> Starred(q)[1..] == Starred(q[1..])
  {
  }

  lemma SegmentStep(p: string)
    requires p != "" && p[0] != '/'
    ensures SegmentLength(Starred(p)) == |StarChar(p[0])| + SegmentLength(Starred(p[1..]))
  {
  }

  // A segment of the pattern stays a segment of the quoted text.
  lemma {:induction false} SegmentOfStarred(p: string)
    ensures SegmentLength(p) <= |p|
    ensures SegmentLength(Starred(p)) == |Starred(p[..SegmentLength(p)])|
    ensures Starred(p) == Starred(p[..SegmentLength(p)]) + Starred(p[SegmentLength(p)..])
    decreases |p|
  {
    SegmentFits(p);
    var n := SegmentLength(p);
    assert p == p[..n] + p[n..];
    StarredConcat(p[..n], p[n..]);
    if p != "" && p[0] != '/' {
      SegmentOfStarred(p[1..]);
      assert p[..n][1..] == p[1..][..n - 1];
      SegmentStep(p);
    } else {
      assert p[..0] == "";
      FrontOfStarred(p);
    }
  }

  // Where the placeholder rewrite can start in the quoted text.
  lemma PlaceholderInStarred(q: string)
    ensures PlaceholderAt(['\\'] + Starred(q)) <==> PlaceholderAt(['\\'] + q)
  {
    FrontOfStarred(q);
    if q != "" && q[0] == '/' {
      FrontOfStarred(q[1..]);
      if |q| > 1 && q[1] == ':' {
        FrontOfStarred(q[2..]);
        assert q[1..][1..] == q[2..] && Starred(q)[2..] == Starred(q)[1..][1..];
      }
    }
  }

  function Emitted(p: string): string { RewritePlaceholders(Starred(p)) }

  lemma RewriteSkip(c: char, s: string)
    requires !PlaceholderAt([c] + s)
    ensures RewritePlaceholders([c] + s) == [c] + RewritePlaceholders(s)
  {
    assert ([c] + s)[1..] == s;
  }

  lemma RewriteAt(s: string)
    requires PlaceholderAt(s)
    ensures SegmentLength(s[3..]) <= |s[3..]|
    ensures RewritePlaceholders(s) == "/[^/]+" + RewritePlaceholders(s[3..][SegmentLength(s[3..])..])
  {
    SegmentFits(s[3..]);
    assert s[3 + SegmentLength(s[3..])..] == s[3..][SegmentLength(s[3..])..];
  }

  // The emitted text, piece by piece.
  lemma EmittedStep(p: string)
    requires p != ""
    ensures SegmentLength(p[1..]) <= |p[1..]|
    ensures PlaceholderAt(p) ==>
      SegmentLength(p[3..]) <= |p[3..]| && Emitted(p) == "\\/[^/]+" + Emitted(p[3..][SegmentLength(p[3..])..])
    ensures !PlaceholderAt(p) ==> Emitted(p) == StarChar(p[0]) + Emitted(p[1..])
  {
    SegmentFits(p[1..]);
    if PlaceholderAt(p) {
      PlaceholderStep(p);
    } else {
      CharStep(p);
    }
  }

  lemma StarredOf(p: string)
    requires p != ""
    ensures Starred(p) == StarChar(p[0]) + Starred(p[1..])
  {
  }

  lemma CharStep(p: string)
    requires p != "" && !PlaceholderAt(p)
    ensures Emitted(p) == StarChar(p[0]) + Emitted(p[1..])
  {
    hide RewritePlaceholders, Starred, PlaceholderAt, StarChar;
    var c, rest := p[0], Starred(p[1..]);
    StarredOf(p);
    assert [c] + p[1..] == p;
    if |StarChar(c)| == 1 {
      OneCharFront(c, rest);
      RewriteSkip(c, rest);
    } else {
      TwoCharFront(c, rest);
      PlaceholderInStarred(p[1..]);
      var c0, c1 := StarChar(c)[0], StarChar(c)[1];
      assert StarChar(c) == [c0] + [c1];
      assert Starred(p) == [c0] + ([c1] + rest);
      RewriteSkip(c1, rest);
      RewriteSkip(c0, [c1] + rest);
    }
  }

  lemma OneCharFront(c: char, rest: string)
    requires |StarChar(c)| == 1
    ensures StarChar(c) == [c] && !PlaceholderAt([c] + rest)
  {
  }

  // A quoted character: the rewrite can start at it, if it is a backslash, but not before it.
  lemma TwoCharFront(c: char, rest: string)
    requires |StarChar(c)| != 1
    ensures |StarChar(c)| == 2 && !PlaceholderAt([StarChar(c)[0]] + ([StarChar(c)[1]] + rest))
    ensures StarChar(c)[1] == if c == '*' then '*' else c
    ensures PlaceholderAt([StarChar(c)[1]] + rest) ==> c == '\\'
  {
  }

  lemma PlaceholderStep(p: string)
    requires PlaceholderAt(p)
    ensures SegmentLength(p[3..]) <= |p[3..]|
    ensures Emitted(p) == "\\/[^/]+" + Emitted(p[3..][SegmentLength(p[3..])..])
  {
    hide RewritePlaceholders, Starred, PlaceholderAt;
    BackslashTwice(p);
    var q := p[3..];
    var n := SegmentLength(q);
    var s' := ['\\'] + Starred(p[1..]);
    QuotedPlaceholder(p);
    SegmentOfStarred(q);
    RewriteSkip('\\', s');
    RewriteAt(s');
    assert Starred(q)[|Starred(q[..n])|..] == Starred(q[n..]);
    assert ['\\'] + ("/[^/]+" + RewritePlaceholders(Starred(q[n..]))) == "\\/[^/]+" + Emitted(q[n..]);
  }

  lemma QuotedPlaceholder(p: string)
    requires PlaceholderAt(p)
    ensures |Starred(p[1..])| >= 2 && (['\\'] + Starred(p[1..]))[3..] == Starred(p[3..])
  {
  }

  lemma BackslashTwice(p: string)
    requires PlaceholderAt(p)
    ensures var s := ['\\'] + Starred(p[1..]);
            |p| > 3 && Starred(p) == ['\\'] + s && PlaceholderAt(s) && !PlaceholderAt(['\\'] + s)
  {
    hide Starred, PlaceholderAt, StarChar;
    HeadOfPlaceholder(p);
    StarredOf(p);
    TwoBackslashes(Starred(p[1..]));
    PlaceholderInStarred(p[1..]);
  }

  lemma HeadOfPlaceholder(p: string)
    requires PlaceholderAt(p)
    ensures |p| > 3 && p[0] == '\\' && p == ['\\'] + p[1..]
  {
  }

  lemma TwoBackslashes(rest: string)
    ensures StarChar('\\') + rest == ['\\'] + (['\\'] + rest) && !PlaceholderAt(['\\'] + (['\\'] + rest))
  {
  }

  // The emitted text, followed by anything that parses, parses to the pieces of the pattern.
  lemma {:induction false} EmittedParses(p: string, tail: string)
    requires Parse(tail).Some?
    ensures Parse(Emitted(p) + tail) == Some(Pieces(p) + Parse(tail).value)
    decreases |p|
  {
    if p == "" {
      assert Emitted(p) + tail == tail && [] + Parse(tail).value == Parse(tail).value;
    } else {
      EmittedStep(p);
      if PlaceholderAt(p) {
        var rest := p[3..][SegmentLength(p[3..])..];
        assert p[3 + SegmentLength(p[3..])..] == rest;
        EmittedParses(rest, tail);
        PrependPiece("\\/[^/]+", Emitted(rest), tail, [Lit('/'), Segment], Pieces(rest));
        ParsePlaceholder(Emitted(rest) + tail);
      } else {
        EmittedParses(p[1..], tail);
        var t := if p[0] == '*' then AnyRun else Lit(p[0]);
        PrependPiece(StarChar(p[0]), Emitted(p[1..]), tail, [t], Pieces(p[1..]));
        ParseChar(p[0], Emitted(p[1..]) + tail);
      }
    }
  }

  lemma PrependPiece(a: string, b: string, tail: string, ts: seq<Token>, us: seq<Token>)
    requires Parse(tail).Some?
    ensures a + b + tail == a + (b + tail)
    ensures ts + us + Parse(tail).value == ts + (us + Parse(tail).value)
  {
  }

  lemma ParsePlaceholder(rest: string)
    requires Parse(rest).Some?
    ensures Parse("\\/[^/]+" + rest) == Some([Lit('/'), Segment] + Parse(rest).value)
  {
    var t := "\\/[^/]+" + rest;
    assert t[0] == '\\' && t[1] == '/' && t[2..] == "[^/]+" + rest && t[2..][5..] == rest;
    assert Parse(t[2..]) == Prepend(Segment, Parse(rest));
    assert Parse(t) == Prepend(Lit('/'), Parse(t[2..]));
    assert [Lit('/')] + ([Segment] + Parse(rest).value) == [Lit('/'), Segment] + Parse(rest).value;
  }

  lemma ParseChar(c: char, rest: string)
    requires Parse(rest).Some?
    ensures Parse(StarChar(c) + rest) == Prepend(if c == '*' then AnyRun else Lit(c), Parse(rest))
  {
  }

  // The emitted text ends in a dollar sign exactly when the last piece is a literal one.
  lemma {:induction false} EmittedDollar(p: string)
    ensures DollarAgrees(Emitted(p), Pieces(p))
    decreases |p|
  {
    if p == "" {
    } else {
      EmittedStep(p);
      if PlaceholderAt(p) {
        var rest := p[3..][SegmentLength(p[3..])..];
        assert p[3 + SegmentLength(p[3..])..] == rest;
        EmittedDollar(rest);
        DollarOfConcat("\\/[^/]+", [Lit('/'), Segment], Emitted(rest), Pieces(rest));
      } else {
        EmittedDollar(p[1..]);
        var t := if p[0] == '*' then AnyRun else Lit(p[0]);
        DollarOfConcat(StarChar(p[0]), [t], Emitted(p[1..]), Pieces(p[1..]));
      }
    }
  }

  predicate DollarAgrees(text: string, ts: seq<Token>) {
    (text == "" <==> ts == []) && (HasSuffix(text, "$") <==> EndsInDollar(ts))
  }

  lemma DollarOfConcat(a: string, as': seq<Token>, b: string, bs: seq<Token>)
    requires a != "" && as' != [] && DollarAgrees(b, bs)
    requires a[|a| - 1] == '$' <==> as'[|as'| - 1] == Lit('$')
    ensures DollarAgrees(a + b, as' + bs)
  {
    var t := a + b;
    assert t[|t| - 1..] == [t[|t| - 1]];
    assert b != "" ==> b[|b| - 1..] == [b[|b| - 1]];
  }

  /** For every pattern, the emitted text parses: to the pieces of the pattern, with an end anchor unless the last is a dollar sign. */
  lemma RegexIsPieces(p: string)
    ensures Parse(PatternToRegex(p)) == Some(Pieces(p) + if Anchored(p) then [End] else [])
  {
    StarRewrite(p);
    EmittedDollar(p);
    var text := Emitted(p);
    assert PatternToRegex(p) == if HasSuffix(text, "$") then text else text + "$";
    if Anchored(p) {
      assert "$"[1..] == "" && [End] + [] == [End];
      EmittedParses(p, "$");
    } else {
      EmittedParses(p, "");
      assert text + "" == text;
    }
  }

  /** Every operator is behind a backslash, or in `.*` or `[^/]+`, or the last dollar sign. */
  ghost predicate NoBareOperator(text: string)
    decreases |text|
  {
    || text == "" || text == "$"
    || (|text| > 1 && text[0] == '\\' && NoBareOperator(text[2..]))
    || (".*" <= text && NoBareOperator(text[2..]))
    || ("[^/]+" <= text && NoBareOperator(text[5..]))
    || (text[0] !in "\\.+*?^$|()[]{}" && NoBareOperator(text[1..]))
  }

  /** Nothing a pattern says is taken for an operator, but for its stars and placeholders. */
  lemma EmittedIsQuoted(p: string)
    ensures NoBareOperator(PatternToRegex(p))
  {
    RegexIsPieces(p);
    PiecesAnchorFree(p);
    ParsedIsQuoted(PatternToRegex(p));
  }

  ghost predicate EndsOnlyLast(ts: seq<Token>) {
    forall k | 0 <= k < |ts| - 1 :: ts[k] != End
  }

  lemma {:induction false} ParsedIsQuoted(text: string)
    requires Parse(text).Some? && EndsOnlyLast(Parse(text).value)
    ensures NoBareOperator(text)
    decreases |text|
  {
    if text == "" {
    } else {
      var n := FirstToken(text);
      hide Parse, EndsOnlyLast;
      ParsedIsQuoted(text[n..]);
    }
  }

  // The first token takes n characters; an end anchor stands last.
  lemma FirstToken(text: string) returns (n: nat)
    requires text != "" && Parse(text).Some? && EndsOnlyLast(Parse(text).value)
    ensures 0 < n <= |text| && Parse(text[n..]).Some? && EndsOnlyLast(Parse(text[n..]).value)
    ensures
      || (text[0] == '\\' && n == 2)
      || (".*" <= text && n == 2)
      || ("[^/]+" <= text && n == 5)
      || (!Operator(text[0]) && n == 1)
      || text == "$"
  {
    hide EndsOnlyLast;
    n := if text[0] == '\\' || text[0] == '.' then 2 else if text[0] == '[' then 5 else 1;
    var rest := Parse(text[n..]).value;
    EndsOnlyLastInTail(Parse(text).value[0], rest);
    if text[0] == '$' {
      NoTokensNoText(text[1..]);
      assert text == [text[0]] + text[1..];
    }
  }

  lemma EndsOnlyLastInTail(t: Token, rest: seq<Token>)
    requires EndsOnlyLast([t] + rest)
    ensures EndsOnlyLast(rest) && (t == End ==> rest == [])
  {
    var ts := [t] + rest;
    assert ts[0] == t && forall k | 0 <= k < |rest| :: rest[k] == ts[k + 1];
  }

  lemma NoTokensNoText(text: string)
    requires Parse(text) == Some([])
    ensures text == ""
  {
  }

  // ----- the search accepts what the glob accepts -----

  ghost predicate AnchorFree(ts: seq<Token>) { End !in ts }

  lemma {:induction false} PiecesAnchorFree(p: string)
    ensures AnchorFree(Pieces(p))
    decreases |p|
  {
    if p == "" {
    } else {
      if PlaceholderAt(p) {
        SegmentFits(p[3..]);
        PiecesAnchorFree(p[3 + SegmentLength(p[3..])..]);
      } else {
        PiecesAnchorFree(p[1..]);
      }
    }
  }

  predicate Wildcard(g: Token) { g.AnyRun? || g.Segment? }

  lemma GlobFromSplit(ts: seq<Token>, s: string, i: nat, k: nat, j: nat)
    requires ts != [] && Wildcard(ts[0]) && i <= k <= j <= |s|
    requires Fills(ts[0], s[i..k]) && Glob(ts[1..], s[k..j])
    ensures Glob(ts, s[i..j])
  {
    var t := s[i..j];
    assert t[..k - i] == s[i..k] && t[k - i..] == s[k..j];
    assert Fills(ts[0], t[..k - i]) && Glob(ts[1..], t[k - i..]);
  }

  lemma SplitFromGlob(ts: seq<Token>, s: string, i: nat, j: nat) returns (k: nat)
    requires ts != [] && Wildcard(ts[0]) && i <= j <= |s| && Glob(ts, s[i..j])
    ensures i <= k <= j && Fills(ts[0], s[i..k]) && Glob(ts[1..], s[k..j])
  {
    var t := s[i..j];
    var m :| 0 <= m <= |t| && Fills(ts[0], t[..m]) && Glob(ts[1..], t[m..]);
    k := i + m;
    assert t[..m] == s[i..k] && t[m..] == s[k..j];
  }

  // An expression matches s[i..j] exactly when that text, on its own, fits the glob.
  lemma {:induction false} MatchIsGlob(ts: seq<Token>, s: string, i: nat, j: nat)
    requires AnchorFree(ts) && i <= |s|
    ensures MatchesAt(ts, s, i, j) <==> i <= j <= |s| && Glob(ts, s[i..j])
    decreases |ts|
  {
    if ts == [] {
    } else {
      assert AnchorFree(ts[1..]) && ts[0] in ts;
      if Wildcard(ts[0]) {
        WildcardMatch(ts, s, i, j);
      } else if i < |s| {
        MatchIsGlob(ts[1..], s, i + 1, j);
        assert i < j <= |s| ==> s[i..j][0] == s[i] && s[i..j][1..] == s[i + 1..j];
      }
    }
  }

  lemma WildcardMatch(ts: seq<Token>, s: string, i: nat, j: nat)
    requires ts != [] && AnchorFree(ts[1..]) && Wildcard(ts[0]) && i <= |s|
    ensures MatchesAt(ts, s, i, j) <==> i <= j <= |s| && Glob(ts, s[i..j])
    decreases |ts|, 0
  {
    if MatchesAt(ts, s, i, j) {
      hide Glob;
      var k :| i <= k <= |s| && Fills(ts[0], s[i..k]) && MatchesAt(ts[1..], s, k, j);
      MatchIsGlob(ts[1..], s, k, j);
      GlobFromSplit(ts, s, i, k, j);
    }
    if i <= j <= |s| && Glob(ts, s[i..j]) {
      hide Glob;
      var k := SplitFromGlob(ts, s, i, j);
      MatchIsGlob(ts[1..], s, k, j);
      assert Fills(ts[0], s[i..k]) && MatchesAt(ts[1..], s, k, j);
    }
  }

  // An end anchor forces the match to reach the end of the text.
  lemma {:induction false} AnchorAtEnd(ts: seq<Token>, s: string, i: nat, j: nat)
    requires AnchorFree(ts)
    ensures MatchesAt(ts + [End], s, i, j) <==> j == |s| && MatchesAt(ts, s, i, j)
    decreases |ts|
  {
    if ts == [] {
      assert (ts + [End])[1..] == [];
    } else {
      assert (ts + [End])[1..] == ts[1..] + [End];
      forall k: nat ensures MatchesAt(ts[1..] + [End], s, k, j) <==> j == |s| && MatchesAt(ts[1..], s, k, j) {
        AnchorAtEnd(ts[1..], s, k, j);
      }
    }
  }

  /**
   * A route pattern accepts a path exactly when some suffix of the path fits the pattern; if the last
   * piece is a literal dollar sign, exactly when some substring does. Nothing ties the match to the start.
   */
  lemma MatchMeaning(p: string, path: string)
    ensures MatchRoutePattern(p, path) <==>
      if Anchored(p) then exists i :: 0 <= i <= |path| && Glob(Pieces(p), path[i..])
      else exists i, j :: 0 <= i <= j <= |path| && Glob(Pieces(p), path[i..j])
  {
    RegexIsPieces(p);
    PiecesAnchorFree(p);
    var ts := Pieces(p);
    forall i, j | 0 <= i <= j <= |path|
      ensures MatchesAt(ts, path, i, j) <==> Glob(ts, path[i..j])
      ensures MatchesAt(ts + [End], path, i, j) <==> j == |path| && Glob(ts, path[i..])
    {
      MatchIsGlob(ts, path, i, j);
      AnchorAtEnd(ts, path, i, j);
      assert path[i..|path|] == path[i..];
    }
    assert ts + [] == ts;
    if Anchored(p) && exists i :: 0 <= i <= |path| && Glob(ts, path[i..]) {
      var i :| 0 <= i <= |path| && Glob(ts, path[i..]);
      assert MatchesAt(ts + [End], path, i, |path|);
    }
  }

  // ----- the same, written out -----

  /** What a piece stands for: itself, anything without a newline, or something without a slash. */
  ghost predicate StandsFor(g: Token, u: string) {
    match g
    case Lit(c) => u == [c]
    case AnyRun => forall c | c in u :: c != '\n'
    case Segment => u != "" && forall c | c in u :: c != '/'
    case End => false
  }

  ghost predicate StandFor(ts: seq<Token>, parts: seq<string>) {
    |parts| == |ts| && forall k | 0 <= k < |ts| :: StandsFor(ts[k], parts[k])
  }

  function Join(parts: seq<string>): string {
    if parts == [] then "" else parts[0] + Join(parts[1..])
  }

  lemma {:induction false} PartsOfGlob(ts: seq<Token>, t: string) returns (parts: seq<string>)
    requires Glob(ts, t)
    ensures StandFor(ts, parts) && Join(parts) == t
    decreases |ts|
  {
    if ts == [] {
      parts := [];
    } else {
      var k := FirstPart(ts, t);
      var rest := PartsOfGlob(ts[1..], t[k..]);
      parts := [t[..k]] + rest;
      assert parts[1..] == rest && t == t[..k] + t[k..];
    }
  }

  lemma FirstPart(ts: seq<Token>, t: string) returns (k: nat)
    requires ts != [] && Glob(ts, t)
    ensures k <= |t| && StandsFor(ts[0], t[..k]) && Glob(ts[1..], t[k..])
  {
    if ts[0].Lit? {
      k := 1;
    } else {
      k :| 0 <= k <= |t| && Fills(ts[0], t[..k]) && Glob(ts[1..], t[k..]);
    }
  }

  lemma {:induction false} GlobOfParts(ts: seq<Token>, parts: seq<string>)
    requires StandFor(ts, parts)
    ensures Glob(ts, Join(parts))
    decreases |ts|
  {
    if ts == [] {
    } else {
      GlobOfParts(ts[1..], parts[1..]);
      GlobFront(ts, parts[0], Join(parts[1..]));
    }
  }

  lemma GlobFront(ts: seq<Token>, u: string, t: string)
    requires ts != [] && StandsFor(ts[0], u) && Glob(ts[1..], t)
    ensures Glob(ts, u + t)
  {
    var s := u + t;
    assert s[..|u|] == u && s[|u|..] == t;
    assert !ts[0].Lit? ==> Fills(ts[0], s[..|u|]);
  }

  /** The parts stand for the pieces of the pattern and make up path[i..j], where the path ends unless the pattern ends in a dollar sign. */
  ghost predicate MadeOf(p: string, path: string, i: int, j: int, parts: seq<string>) {
    && 0 <= i <= j <= |path| && (j == |path| || !Anchored(p))
    && StandFor(Pieces(p), parts) && path[i..j] == Join(parts)
  }

  /** A pattern accepts a path exactly when some stretch of it is made of parts that the pieces of the pattern stand for. */
  lemma MatchByParts(p: string, path: string)
    ensures MatchRoutePattern(p, path) <==> exists i, j, parts :: MadeOf(p, path, i, j, parts)
  {
    MatchMeaning(p, path);
    hide MatchRoutePattern, Glob, StandFor, Join;
    var ts := Pieces(p);
    assert forall i | 0 <= i <= |path| :: path[i..|path|] == path[i..];
    if i, j :| 0 <= i <= j <= |path| && (j == |path| || !Anchored(p)) && Glob(ts, path[i..j]) {
      var parts := PartsOfGlob(ts, path[i..j]);
      assert MadeOf(p, path, i, j, parts);
    }
    if i, j, parts :| MadeOf(p, path, i, j, parts) {
      GlobOfParts(ts, parts);
    }
  }

  lemma {:induction false} SegmentIs(name: string, rest: string)
    requires '/' !in name && (rest == "" || rest[0] == '/')
    ensures SegmentLength(name + rest) == |name|
    decreases |name|
  {
    if name == "" {
      assert name + rest == rest;
    } else {
      assert name[0] in name && (name + rest)[1..] == name[1..] + rest;
      SegmentIs(name[1..], rest);
    }
  }

  /** How a pattern is read: backslash, slash, colon and a name up to the next slash or the end are a slash and a segment. */
  lemma PlaceholderPieces(name: string, rest: string)
    requires name != "" && '/' !in name && (rest == "" || rest[0] == '/')
    ensures Pieces("\\/:" + name + rest) == [Lit('/'), Segment] + Pieces(rest)
  {
    var q := "\\/:" + name + rest;
    assert name[0] in name && q[3] == name[0];
    assert q[3..] == name + rest && q[3 + |name|..] == rest;
    SegmentIs(name, rest);
  }

  /** Everything else is read character by character: a star is a wildcard, any other character stands for itself. */
  lemma CharPieces(p: string)
    requires p != "" && !(|p| > 3 && "\\/:" <= p && p[3] != '/')
    ensures Pieces(p) == [if p[0] == '*' then AnyRun else Lit(p[0])] + Pieces(p[1..])
  {
    hide Pieces;
    NoPlaceholder(p);
    PiecesStep(p);
  }

  lemma NoPlaceholder(p: string)
    requires !(|p| > 3 && "\\/:" <= p && p[3] != '/')
    ensures !PlaceholderAt(p)
  {
    assert |p| > 3 ==> p[..3] == [p[0], p[1], p[2]];
  }

  lemma PiecesStep(p: string)
    requires p != "" && !PlaceholderAt(p)
    ensures Pieces(p) == [if p[0] == '*' then AnyRun else Lit(p[0])] + Pieces(p[1..])
  {
  }

  // ----- consequences -----

  /** The placeholder rewrite does something exactly if a backslash, slash, colon and segment stand together: a plain `/:name` is literal text. */
  lemma {:induction false} PlaceholdersNeedBackslash(p: string)
    ensures RewritePlaceholders(ReplaceAll(QuoteMeta(p), "\\*", ".*")) == ReplaceAll(QuoteMeta(p), "\\*", ".*")
       <==> Plain(p)
  {
    StarRewrite(p);
    EmittedIsStarred(p);
  }

  /** Nowhere in the pattern do backslash, slash, colon and a segment stand together. */
  ghost predicate Plain(p: string) {
    forall i | 0 <= i < |p| :: !PlaceholderAt(p[i..])
  }

  lemma PlainStep(p: string)
    requires p != ""
    ensures Plain(p) <==> !PlaceholderAt(p) && Plain(p[1..])
  {
    assert p[0..] == p;
    assert forall i | 0 <= i < |p| - 1 :: p[1..][i..] == p[i + 1..];
    assert forall i | 1 <= i < |p| :: p[i..] == p[1..][i - 1..];
  }

  lemma {:induction false} EmittedIsStarred(p: string)
    ensures Emitted(p) == Starred(p) <==> Plain(p)
    decreases |p|
  {
    if p == "" {
    } else {
      EmittedIsStarred(p[1..]);
      PlainStep(p);
      if PlaceholderAt(p) {
        PlaceholderChanges(p);
      } else {
        hide Plain, Emitted, SegmentLength;
        EmittedStep(p);
        SameFront(StarChar(p[0]), Emitted(p[1..]), Starred(p[1..]));
      }
    }
  }

  lemma PlaceholderChanges(p: string)
    requires PlaceholderAt(p)
    ensures Emitted(p) != Starred(p)
  {
    hide Emitted;
    EmittedStep(p);
    assert Emitted(p)[1] == '/';
    assert StarChar(p[0]) == "\\\\" && Starred(p)[1] == '\\';
  }

  function Lits(p: string): seq<Token> { seq(|p|, i requires 0 <= i < |p| => Lit(p[i])) }

  lemma {:induction false} LiteralPieces(p: string)
    requires '\\' !in p && '*' !in p
    ensures Pieces(p) == Lits(p)
    decreases |p|
  {
    if p == "" {
    } else {
      assert p[0] in p && forall c | c in p[1..] :: c in p;
      LiteralPieces(p[1..]);
    }
  }

  lemma {:induction false} LitsMatchThemselves(p: string, t: string)
    ensures Glob(Lits(p), t) <==> t == p
    decreases |p|
  {
    if p == "" {
    } else {
      assert Lits(p)[1..] == Lits(p[1..]);
      if t != "" {
        LitsMatchThemselves(p[1..], t[1..]);
        assert t == [t[0]] + t[1..] && p == [p[0]] + p[1..];
      }
    }
  }

  /**
   * A pattern without wildcards matches every path that ends in it, whatever comes before; if the pattern
   * itself ends in a dollar sign, every path that contains it.
   */
  lemma LiteralPattern(p: string, path: string)
    requires '\\' !in p && '*' !in p
    ensures MatchRoutePattern(p, path) <==> if HasSuffix(p, "$") then Contains(path, p) else HasSuffix(path, p)
  {
    LiteralPieces(p);
    MatchMeaning(p, path);
    hide MatchRoutePattern, Pieces, Glob;
    assert p != "" ==> p[|p| - 1..] == [p[|p| - 1]];
    if HasSuffix(p, "$") {
      SomeSubstring(p, path);
    } else {
      SomeSuffix(p, path);
    }
  }

  lemma SomeSuffix(p: string, path: string)
    ensures (exists i :: 0 <= i <= |path| && Glob(Lits(p), path[i..])) <==> HasSuffix(path, p)
  {
    hide Glob;
    forall i | 0 <= i <= |path| ensures Glob(Lits(p), path[i..]) <==> path[i..] == p {
      LitsMatchThemselves(p, path[i..]);
    }
    if HasSuffix(path, p) {
      assert Glob(Lits(p), path[|path| - |p|..]);
    }
  }

  lemma SomeSubstring(p: string, path: string)
    ensures (exists i, j :: 0 <= i <= j <= |path| && Glob(Lits(p), path[i..j])) <==> Contains(path, p)
  {
    hide Glob;
    forall i, j | 0 <= i <= j <= |path| ensures Glob(Lits(p), path[i..j]) <==> path[i..j] == p {
      LitsMatchThemselves(p, path[i..j]);
    }
    if Contains(path, p) {
      var i :| 0 <= i <= |path| - |p| && p <= path[i..];
      assert path[i..i + |p|] == path[i..][..|p|] == p;
      assert Glob(Lits(p), path[i..i + |p|]);
    }
    if exists i, j :: 0 <= i <= j <= |path| && Glob(Lits(p), path[i..j]) {
      var i, j :| 0 <= i <= j <= |path| && Glob(Lits(p), path[i..j]);
      assert path[i..][..|p|] == path[i..j];
      assert p <= path[i..];
    }
  }

  lemma {:induction false} GlobLitsThen(p: string, ts: seq<Token>, t: string)
    ensures Glob(Lits(p) + ts, t) <==> p <= t && Glob(ts, t[|p|..])
    decreases |p|
  {
    if p == "" {
      assert Lits(p) + ts == ts && t[0..] == t;
    } else {
      assert (Lits(p) + ts)[1..] == Lits(p[1..]) + ts;
      if t != "" {
        GlobLitsThen(p[1..], ts, t[1..]);
        assert t == [t[0]] + t[1..] && p == [p[0]] + p[1..];
        assert p <= t ==> t[1..][|p| - 1..] == t[|p|..];
      }
    }
  }

  /** A pattern with one trailing star matches exactly the paths where its text occurs with no newline after it. */
  lemma TrailingStar(p: string, path: string)
    requires '\\' !in p && '*' !in p
    ensures MatchRoutePattern(p + "*", path) <==>
      exists i :: 0 <= i <= |path| && p <= path[i..] && '\n' !in path[i..][|p|..]
  {
    PiecesOfTrailingStar(p);
    MatchMeaning(p + "*", path);
    forall t: string ensures Glob(Pieces(p + "*"), t) <==> p <= t && '\n' !in t[|p|..] {
      GlobLitsThen(p, [AnyRun], t);
      if p <= t {
        StarTakesAll(t[|p|..]);
      }
    }
  }

  lemma {:induction false} PiecesOfTrailingStar(p: string)
    requires '\\' !in p && '*' !in p
    ensures Pieces(p + "*") == Lits(p) + [AnyRun]
    decreases |p|
  {
    if p == "" {
      assert p + "*" == "*" && "*"[1..] == "";
    } else {
      assert p[0] in p && forall c | c in p[1..] :: c in p;
      assert (p + "*")[1..] == p[1..] + "*";
      PiecesOfTrailingStar(p[1..]);
      assert Lits(p) == [Lit(p[0])] + Lits(p[1..]);
    }
  }

  lemma StarTakesAll(t: string)
    ensures Glob([AnyRun], t) <==> '\n' !in t
  {
    assert [AnyRun][1..] == [];
    if '\n' !in t {
      assert t[..|t|] == t && t[|t|..] == "";
      assert Fills(AnyRun, t[..|t|]) && Glob([AnyRun][1..], t[|t|..]);
    }
    if Glob([AnyRun], t) {
      var k :| 0 <= k <= |t| && Fills(AnyRun, t[..k]) && Glob([AnyRun][1..], t[k..]);
      assert t == t[..k] + t[k..];
    }
  }
}
