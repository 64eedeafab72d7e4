// The two `decodeURL` functions of the security middleware: the SQL one in
// internal/middleware/security/sql_injection.go and the XSS one in
// internal/middleware/security/xss.go.

module SqlDecoder {
  import opened Strings
  import opened PassOrder

  /** The seven passes, in the order they are applied. */
  const PASSES: seq<Pass> := [
    Pass("%27", "'"), Pass("%22", "\""), Pass("%3B", ";"), Pass("%2D%2D", "--"),
    Pass("%23", "#"), Pass("%2F%2A", "/*"), Pass("%2A%2F", "*/")]

  function DecodeURL(input: string): string {
    var decoded := ReplaceAll(input, "%27", "'");
    var decoded := ReplaceAll(decoded, "%22", "\"");
    var decoded := ReplaceAll(decoded, "%3B", ";");
    var decoded := ReplaceAll(decoded, "%2D%2D", "--");
    var decoded := ReplaceAll(decoded, "%23", "#");
    var decoded := ReplaceAll(decoded, "%2F%2A", "/*");
    var decoded := ReplaceAll(decoded, "%2A%2F", "*/");
    decoded
  }

  /** Each pass writes the characters that its escape spells. */
  lemma PassesSpell()
    ensures forall p | p in PASSES :: SpellsText(p.from, p.to)
  {
    hide SpellsText;
    OneEscape("%27", '\'');
    OneEscape("%22", '\"');
    OneEscape("%3B", ';');
    TwoEscapes("%2D", "%2D", '-', '-');
    OneEscape("%23", '#');
    TwoEscapes("%2F", "%2A", '/', '*');
    TwoEscapes("%2A", "%2F", '*', '/');
    assert "%2D" + "%2D" == "%2D%2D" && "%2F" + "%2A" == "%2F%2A" && "%2A" + "%2F" == "%2A%2F";
  }

  lemma PassesAreInert()
    ensures Inert(PASSES)
  {
    PassesSpell();
    forall p | p in PASSES ensures EscapePass(p) {
      assert |p.to| <= 2 && forall c | c in p.to :: !CodeChar(c);
      SpelledIsEscape(p);
    }
    EscapePassesAreInert(PASSES);
  }

  lemma DecodeIsChain(input: string)
    ensures forall p | p in PASSES :: p.from != ""
    ensures DecodeURL(input) == ApplyAll(input, PASSES)
  {
  }

  /** No escape survives, although `%2F%2A` and `%2A%2F` overlap and `%2D%2D` overlaps itself. */
  lemma NoEscapeLeft(input: string)
    ensures var out := DecodeURL(input);
            && !Contains(out, "%27") && !Contains(out, "%22") && !Contains(out, "%3B") && !Contains(out, "%2D%2D")
            && !Contains(out, "%23") && !Contains(out, "%2F%2A") && !Contains(out, "%2A%2F")
  {
    NoPassLeft(input);
    hide DecodeURL, Contains;
    assert forall k | 0 <= k < 7 :: PASSES[k] in PASSES;
    assert !Contains(DecodeURL(input), PASSES[0].from) && !Contains(DecodeURL(input), PASSES[1].from);
    assert !Contains(DecodeURL(input), PASSES[2].from) && !Contains(DecodeURL(input), PASSES[3].from);
    assert !Contains(DecodeURL(input), PASSES[4].from) && !Contains(DecodeURL(input), PASSES[5].from);
    assert !Contains(DecodeURL(input), PASSES[6].from);
  }

  lemma NoPassLeft(input: string)
    ensures forall p | p in PASSES :: !Contains(DecodeURL(input), p.from)
  {
    PassesAreInert();
    DecodeIsChain(input);
    ChainLeavesNone(input, PASSES);
  }

  lemma DecodeIdempotent(input: string)
    ensures DecodeURL(DecodeURL(input)) == DecodeURL(input)
  {
    PassesAreInert();
    DecodeIsChain(input);
    DecodeIsChain(DecodeURL(input));
    ChainIdempotent(input, PASSES);
  }

  /** No pass, applied to any string, brings about an occurrence of any escape. */
  lemma PassCreatesNoEscape(s: string, p: Pass, q: Pass)
    requires p in PASSES && q in PASSES
    requires !Contains(s, q.from)
    ensures !Contains(ReplaceAll(s, p.from, p.to), q.from)
  {
    PassesAreInert();
    if Contains(ReplaceAll(s, p.from, p.to), q.from) {
      OccurrenceNotCreated(s, p.from, p.to, q.from);
    }
  }

  // ----- the order of the passes -----

  const SLASH := "%2F"
  const STAR := "%2A"

  /** The first five passes, whose escapes overlap no other. */
  function Independent(input: string): string {
    var decoded := ReplaceAll(input, "%27", "'");
    var decoded := ReplaceAll(decoded, "%22", "\"");
    var decoded := ReplaceAll(decoded, "%3B", ";");
    var decoded := ReplaceAll(decoded, "%2D%2D", "--");
    ReplaceAll(decoded, "%23", "#")
  }

  /** The decoder with its last two passes exchanged. */
  function Exchanged(input: string): string {
    var decoded := Independent(input);
    var decoded := ReplaceAll(decoded, "%2A%2F", "*/");
    ReplaceAll(decoded, "%2F%2A", "/*")
  }

  // None of the first five passes makes or breaks an occurrence of text made of the two tokens.
  lemma IndependentKeeps(input: string, e: string)
    requires e == SLASH + STAR + SLASH || e == STAR + SLASH + STAR
    ensures Contains(Independent(input), e) <==> Contains(input, e)
  {
    hide ReplaceAll, Contains;
    assert forall c | c in e :: CodeChar(c);
    AllForeign(e);
    var s1 := ReplaceAll(input, "%27", "'");
    var s2 := ReplaceAll(s1, "%22", "\"");
    var s3 := ReplaceAll(s2, "%3B", ";");
    var s4 := ReplaceAll(s3, "%2D%2D", "--");
    SameOccurrences(input, "%27", "'", e);
    SameOccurrences(s1, "%22", "\"", e);
    SameOccurrences(s2, "%3B", ";", e);
    SameOccurrences(s3, "%2D%2D", "--", e);
    SameOccurrences(s4, "%23", "#", e);
  }

  lemma AllForeign(e: string)
    requires e == SLASH + STAR + SLASH || e == STAR + SLASH + STAR
    ensures Foreign("%27", e) && Foreign("%22", e) && Foreign("%3B", e) && Foreign("%2D%2D", e) && Foreign("%23", e)
  {
    OneToken("%27", e);
    OneToken("%22", e);
    OneToken("%3B", e);
    assert "%2D%2D"[3..6] == "%2D";
    IsForeign("%2D%2D", e);
    OneToken("%23", e);
  }

  lemma OneToken(from: string, e: string)
    requires Token(from) && from != SLASH && from != STAR
    requires e == SLASH + STAR + SLASH || e == STAR + SLASH + STAR
    ensures Foreign(from, e)
  {
    assert from[0..3] == from;
    IsForeign(from, e);
  }

  lemma IsForeign(from: string, e: string)
    requires Without(from, SLASH) && Without(from, STAR)
    requires e == SLASH + STAR + SLASH || e == STAR + SLASH + STAR
    ensures Foreign(from, e)
  {
    hide Without;
    var x, y := e[..3], e[3..][..3];
    assert e[3..][3..][..3] == x && e[3..][3..][3..] == "";
    assert (x == SLASH && y == STAR) || (x == STAR && y == SLASH);
    assert Foreign(from, e[3..][3..]);
    assert Foreign(from, e[3..]);
  }

  /**
   * The last two passes may be exchanged exactly for the inputs that have neither `%2F%2A%2F` nor `%2A%2F%2A`:
   * there the middle token belongs to two escapes, and the earlier pass takes it.
   */
  lemma OrderMattersIff(input: string)
    ensures DecodeURL(input) == Exchanged(input)
       <==> !Contains(input, "%2F%2A%2F") && !Contains(input, "%2A%2F%2A")
  {
    hide ReplaceAll, Contains;
    var s := Independent(input);
    assert SLASH + STAR == "%2F%2A" && STAR + SLASH == "%2A%2F";
    assert SLASH + STAR + SLASH == "%2F%2A%2F" && STAR + SLASH + STAR == "%2A%2F%2A";
    assert DecodeURL(input) == Two(s, SLASH, STAR, "/*", "*/");
    assert Exchanged(input) == Two(s, STAR, SLASH, "*/", "/*");
    IndependentKeeps(input, SLASH + STAR + SLASH);
    IndependentKeeps(input, STAR + SLASH + STAR);
    OrderIff(s, SLASH, STAR, "/*", "*/");
  }

  /** An input on which the exchange shows: `%2F%2A` wins if its pass comes first, `%2A%2F` if that one does. */
  lemma OrderMatters()
    ensures var s := "%2F%2A%2F";
            && ReplaceAll(ReplaceAll(s, "%2F%2A", "/*"), "%2A%2F", "*/") == "/*%2F"
            && ReplaceAll(ReplaceAll(s, "%2A%2F", "*/"), "%2F%2A", "/*") == "%2F*/"
  {
    hide ReplaceAll;
    var a, b := "%2F%2A", "%2A%2F";
    assert a + SLASH == SLASH + b == "%2F%2A%2F" && b + "" == b;
    assert "/*" + SLASH == "/*%2F" && SLASH + ("*/" + "") == "%2F*/";
    TakeFront(a, SLASH, "/*");
    Short(SLASH, a, "/*");
    Short("/*%2F", b, "*/");
    OtherToken(SLASH, STAR, SLASH, b);
    SkipToken(SLASH, b, b, "*/");
    TakeFront(b, "", "*/");
    Short("", b, "*/");
    Short("%2F*/", a, "/*");
  }

  lemma {:induction false} Short(s: string, from: string, to: string)
    requires |s| < |from|
    ensures ReplaceAll(s, from, to) == s
    decreases |s|
  {
    if s == "" {
    } else {
      Short(s[1..], from, to);
    }
  }
}

module XssDecoder {
  import opened Strings

  type Escapes = map<string, string>

  const TABLE: Escapes := map[
    "%3C" := "<", "%3E" := ">", "%22" := "\"", "%27" := "'", "%2F" := "/", "%3B" := ";", "%3D" := "="]

  function DecodeURL(input: string): string {
    var decoded := ReplaceAll(input, "%3C", "<");
    var decoded := ReplaceAll(decoded, "%3E", ">");
    var decoded := ReplaceAll(decoded, "%22", "\"");
    var decoded := ReplaceAll(decoded, "%27", "'");
    var decoded := ReplaceAll(decoded, "%2F", "/");
    var decoded := ReplaceAll(decoded, "%3B", ";");
    var decoded := ReplaceAll(decoded, "%3D", "=");
    decoded
  }

  /** The reference: scan once from left to right, decode each escape where it stands. */
  function OnePass(t: Escapes, s: string): string
    decreases |s|
  {
    if s == "" then ""
    else if |s| >= 3 && s[..3] in t then t[s[..3]] + OnePass(t, s[3..])
    else [s[0]] + OnePass(t, s[1..])
  }

  /** The passes of `t` applied one after the other in the given order. */
  function InOrder(t: Escapes, s: string, order: seq<string>): string
    requires forall e | e in order :: e in t && e != ""
    decreases |order|
  {
    if order == [] then s
    else
      var last := order[|order| - 1];
      ReplaceAll(InOrder(t, s, order[..|order| - 1]), last, t[last])
  }

  /** Three characters, a percent sign then two that are not; the replacement is plain text. */
  predicate WellFormed(t: Escapes) {
    forall e | e in t :: Escape(e, t[e])
  }

  predicate Escape(e: string, to: string) {
    && |e| == 3 && e[0] == '%' && e[1] != '%' && e[2] != '%'
    && CodeChar(e[1]) && CodeChar(e[2])
    && to != "" && forall c | c in to :: !CodeChar(c)
  }

  function Restrict(t: Escapes, order: seq<string>): Escapes {
    map e | e in t && e in order :: t[e]
  }

  lemma TableWellFormed()
    ensures WellFormed(TABLE)
  {
    forall e | e in TABLE ensures Escape(e, TABLE[e]) {
      assert |e| == 3 && |TABLE[e]| == 1 && !CodeChar(TABLE[e][0]);
    }
  }

  /** Each escape of the table stands for the character that its digits spell. */
  lemma TableSpells()
    ensures TABLE.Keys == {"%3C", "%3E", "%22", "%27", "%2F", "%3B", "%3D"}
    ensures forall e | e in TABLE :: SpellsText(e, TABLE[e])
  {
    forall e | e in TABLE ensures SpellsText(e, TABLE[e]) {
      assert |TABLE[e]| == 1;
      OneEscape(e, TABLE[e][0]);
    }
  }

  // One more pass decodes one more escape.
  lemma {:induction false} AddEscape(t: Escapes, s: string, e: string, to: string)
    requires WellFormed(t) && Escape(e, to)
    requires e in t ==> t[e] == to
    ensures ReplaceAll(OnePass(t, s), e, to) == OnePass(t[e := to], s)
    decreases |s|
  {
    hide WellFormed;
    assert forall c | c in e :: CodeChar(c);
    if s == "" {
    } else if |s| >= 3 && s[..3] in t {
      AddEscape(t, s[3..], e, to);
      DecodedIsSkipped(t, s, e, to);
    } else if |s| >= 3 && s[..3] == e {
      AddEscape(t, s[3..], e, to);
      StillEncoded(t, s, e);
      assert e <= OnePass(t, s) && OnePass(t, s)[3..] == OnePass(t, s[3..]);
    } else {
      AddEscape(t, s[1..], e, to);
      if e <= OnePass(t, s) { NotMadeAtFront(t, s, e); }
      assert !(e <= OnePass(t, s)) && OnePass(t, s)[1..] == OnePass(t, s[1..]);
    }
  }

  // A pass steps over what the table has decoded.
  lemma DecodedIsSkipped(t: Escapes, s: string, e: string, to: string)
    requires WellFormed(t) && |s| >= 3 && s[..3] in t && |e| == 3 && e[0] == '%'
    ensures ReplaceAll(OnePass(t, s), e, to) == t[s[..3]] + ReplaceAll(OnePass(t, s[3..]), e, to)
  {
    SkipPlain(t[s[..3]], OnePass(t, s[3..]), e, to);
  }

  // An escape that is not yet in the table stays as it is.
  lemma StillEncoded(t: Escapes, s: string, e: string)
    requires WellFormed(t) && |e| == 3 && e[1] != '%' && e[2] != '%'
    requires |s| >= 3 && s[..3] == e && e !in t
    ensures OnePass(t, s) == e + OnePass(t, s[3..])
  {
    hide OnePass, WellFormed;
    assert s[1] == e[1] && s[2] == e[2] && s[1..][1..] == s[2..] && s[2..][1..] == s[3..];
    NotAtEscape(t, s);
    NotAtPercentFree(t, s[1..]);
    NotAtPercentFree(t, s[2..]);
  }

  lemma NotAtEscape(t: Escapes, s: string)
    requires |s| >= 3 && s[..3] !in t
    ensures OnePass(t, s) == [s[0]] + OnePass(t, s[1..])
  {
  }

  // No escape starts at a character other than the percent sign.
  lemma NotAtPercentFree(t: Escapes, s: string)
    requires WellFormed(t) && s != "" && s[0] != '%'
    ensures OnePass(t, s) == [s[0]] + OnePass(t, s[1..])
  {
  }

  // If the decoded text starts with a code character, the input starts with it too.
  lemma FrontKept(t: Escapes, s: string)
    requires WellFormed(t) && OnePass(t, s) != "" && CodeChar(OnePass(t, s)[0])
    ensures s != "" && s[0] == OnePass(t, s)[0] && OnePass(t, s) == [s[0]] + OnePass(t, s[1..])
  {
  }

  lemma NotMadeAtFront(t: Escapes, s: string, e: string)
    requires WellFormed(t) && |e| == 3 && forall c | c in e :: CodeChar(c)
    requires e <= OnePass(t, s)
    ensures e <= s
  {
    var out := OnePass(t, s);
    assert out[0] == e[0] && out[1] == e[1] && out[2] == e[2];
    FrontKept(t, s);
    assert out[1..] == OnePass(t, s[1..]);
    FrontKept(t, s[1..]);
    assert out[2..] == OnePass(t, s[2..]) by { assert s[1..][1..] == s[2..]; }
    FrontKept(t, s[2..]);
  }

  lemma {:induction false} OrderIsOnePass(t: Escapes, s: string, order: seq<string>)
    requires WellFormed(t)
    requires forall e | e in order :: e in t
    ensures InOrder(t, s, order) == OnePass(Restrict(t, order), s)
    decreases |order|
  {
    if order == [] {
      NoEscapes(s);
      assert Restrict(t, order) == map[];
    } else {
      var last, rest := order[|order| - 1], order[..|order| - 1];
      assert order == rest + [last];
      OrderIsOnePass(t, s, rest);
      assert Restrict(t, order) == Restrict(t, rest)[last := t[last]];
      AddEscape(Restrict(t, rest), s, last, t[last]);
    }
  }

  lemma {:induction false} NoEscapes(s: string)
    ensures OnePass(map[], s) == s
    decreases |s|
  {
    if s == "" {
    } else {
      NoEscapes(s[1..]);
    }
  }

  /** Any order of the passes, even with repetitions, gives the one-pass decoder. */
  lemma AnyOrderIsOnePass(input: string, order: seq<string>)
    requires forall e :: e in order <==> e in TABLE
    ensures InOrder(TABLE, input, order) == OnePass(TABLE, input)
  {
    hide OnePass, InOrder;
    TableWellFormed();
    OrderIsOnePass(TABLE, input, order);
    assert Restrict(TABLE, order) == TABLE;
  }

  const SOURCE_ORDER := ["%3C", "%3E", "%22", "%27", "%2F", "%3B", "%3D"]

  lemma SourceOrderCoversTable()
    ensures forall e :: e in SOURCE_ORDER <==> e in TABLE
    ensures forall e | e in TABLE :: e != ""
  {
  }

  // What the k-th pass of the source order does.
  lemma PassAt(input: string, k: nat, e: string, to: string)
    requires k < |SOURCE_ORDER| && e == SOURCE_ORDER[k] && e in TABLE && to == TABLE[e]
    requires forall e :: e in SOURCE_ORDER <==> e in TABLE
    requires forall e | e in TABLE :: e != ""
    ensures InOrder(TABLE, input, SOURCE_ORDER[..k + 1])
         == ReplaceAll(InOrder(TABLE, input, SOURCE_ORDER[..k]), e, to)
  {
    var order := SOURCE_ORDER[..k + 1];
    assert order[..k] == SOURCE_ORDER[..k];
    assert forall e | e in order :: e in SOURCE_ORDER;
  }

  lemma FirstFourPasses(input: string)
    requires forall e :: e in SOURCE_ORDER <==> e in TABLE
    requires forall e | e in TABLE :: e != ""
    ensures forall e | e in SOURCE_ORDER[..4] :: e in TABLE && e != ""
    ensures InOrder(TABLE, input, SOURCE_ORDER[..4])
         == ReplaceAll(ReplaceAll(ReplaceAll(ReplaceAll(
              input, "%3C", "<"), "%3E", ">"), "%22", "\""), "%27", "'")
  {
    hide ReplaceAll;
    PassAt(input, 0, "%3C", "<");
    PassAt(input, 1, "%3E", ">");
    PassAt(input, 2, "%22", "\"");
    PassAt(input, 3, "%27", "'");
  }

  /** The decoder as written is the one-pass decoder. */
  lemma DecodeIsOnePass(input: string)
    ensures DecodeURL(input) == OnePass(TABLE, input)
  {
    hide ReplaceAll, InOrder, OnePass;
    SourceOrderCoversTable();
    FirstFourPasses(input);
    PassAt(input, 4, "%2F", "/");
    PassAt(input, 5, "%3B", ";");
    PassAt(input, 6, "%3D", "=");
    assert SOURCE_ORDER[..7] == SOURCE_ORDER;
    AnyOrderIsOnePass(input, SOURCE_ORDER);
  }

  lemma {:induction false} OnePassLeavesNone(t: Escapes, s: string, e: string)
    requires WellFormed(t) && e in t
    ensures !Contains(OnePass(t, s), e)
    decreases |s|
  {
    var out := OnePass(t, s);
    forall i | 0 <= i <= |out| - |e| ensures !(e <= out[i..]) {
      assert out[i..][0] == out[i];
      if |s| >= 3 && s[..3] in t {
        var to := t[s[..3]];
        if i < |to| {
          assert out[i] == to[i] && to[i] in to;
        } else {
          OnePassLeavesNone(t, s[3..], e);
          assert out[i..] == OnePass(t, s[3..])[i - |to|..];
        }
      } else if i == 0 {
        assert out[0..] == out;
        assert |s| >= 3 ==> s[..3] != e;
        assert !(e <= s);
        if e <= out { NotMadeAtFront(t, s, e); }
      } else {
        OnePassLeavesNone(t, s[1..], e);
        assert out[i..] == OnePass(t, s[1..])[i - 1..];
      }
    }
  }

  lemma {:induction false} OnePassFixesClean(t: Escapes, s: string)
    requires WellFormed(t) && forall e | e in t :: !Contains(s, e)
    ensures OnePass(t, s) == s
    decreases |s|
  {
    hide Contains, WellFormed;
    if s == "" {
    } else {
      forall e | e in t ensures !Contains(s[1..], e) && !(e <= s) {
        FrontClean(s, e);
      }
      assert |s| >= 3 ==> s[..3] <= s;
      OnePassFixesClean(t, s[1..]);
    }
  }

  /** A decoded text holds none of the seven escapes, and decoding it again changes nothing. */
  lemma DecodeFixedPoint(input: string)
    ensures forall e | e in TABLE :: !Contains(DecodeURL(input), e)
    ensures DecodeURL(DecodeURL(input)) == DecodeURL(input)
  {
    TableWellFormed();
    DecodeIsOnePass(input);
    DecodeIsOnePass(DecodeURL(input));
    forall e | e in TABLE ensures !Contains(DecodeURL(input), e) {
      OnePassLeavesNone(TABLE, input, e);
    }
    OnePassFixesClean(TABLE, DecodeURL(input));
  }
}
