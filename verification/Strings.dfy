// String operations the gateway takes from Go's `strings` package, and the
// facts about chains of replacements that the two URL decoders rest on.

module Strings {

  /** `strings.ReplaceAll` for a non-empty `from`: leftmost, non-overlapping. */
  function ReplaceAll(s: string, from: string, to: string): string
    requires from != ""
    decreases |s|
  {
    if s == "" then ""
    else if from <= s then to + ReplaceAll(s[|from|..], from, to)
    else [s[0]] + ReplaceAll(s[1..], from, to)
  }

  /** `strings.Contains`. */
  ghost predicate Contains(s: string, e: string) {
    exists i :: 0 <= i <= |s| - |e| && e <= s[i..]
  }

  predicate HasSuffix(s: string, suffix: string) {
    |suffix| <= |s| && s[|s| - |suffix|..] == suffix
  }

  predicate Disjoint(a: string, b: string) {
    forall c | c in a :: c !in b
  }

  lemma SameFront(a: string, b: string, c: string)
    ensures a + b == a + c <==> b == c
  {
    assert (a + b)[|a|..] == b && (a + c)[|a|..] == c;
  }

  lemma SkipFront(s: string, from: string, to: string)
    requires from != "" && s != "" && !(from <= s)
    ensures ReplaceAll(s, from, to) == [s[0]] + ReplaceAll(s[1..], from, to)
  {
  }

  // A replacement whose text shares no character with `e` cannot put `e` at
  // the front of the result.
  lemma {:induction false} PrefixNotCreated(s: string, from: string, to: string, e: string)
    requires from != "" && to != "" && Disjoint(to, e)
    requires e <= ReplaceAll(s, from, to)
    ensures e <= s
    decreases |s|
  {
    if s == "" || e == "" {
    } else {
      var out := ReplaceAll(s, from, to);
      assert to[0] in to && e[0] in e;
      assert out[0] == e[0] != to[0];
      assert !(from <= s);
      assert out[1..] == ReplaceAll(s[1..], from, to);
      PrefixNotCreated(s[1..], from, to, e[1..]);
      assert e == [e[0]] + e[1..];
    }
  }

  // ... nor anywhere else.
  lemma {:induction false} OccurrenceNotCreated(s: string, from: string, to: string, e: string)
    requires from != "" && to != "" && e != "" && Disjoint(to, e)
    requires Contains(ReplaceAll(s, from, to), e)
    ensures Contains(s, e)
    decreases |s|
  {
    var out := ReplaceAll(s, from, to);
    var i :| 0 <= i <= |out| - |e| && e <= out[i..];
    assert out[i] == e[0] && e[0] in e;
    if from <= s {
      assert forall k | 0 <= k < |to| :: to[k] in to && out[k] == to[k];
      OccurrenceAfter(to, ReplaceAll(s[|from|..], from, to), e, i);
      OccurrenceNotCreated(s[|from|..], from, to, e);
      OccurrenceInTail(s, |from|, e);
    } else if i == 0 {
      assert out[0..] == out && s[0..] == s;
      PrefixNotCreated(s, from, to, e);
    } else {
      OccurrenceAfter([s[0]], ReplaceAll(s[1..], from, to), e, i);
      OccurrenceNotCreated(s[1..], from, to, e);
      OccurrenceInTail(s, 1, e);
    }
  }

  lemma OccurrenceAfter(a: string, b: string, e: string, i: nat)
    requires |a| <= i <= |a + b| - |e| && e <= (a + b)[i..]
    ensures Contains(b, e)
  {
    assert (a + b)[i..] == b[i - |a|..];
  }

  lemma OccurrenceInTail(s: string, k: nat, e: string)
    requires k <= |s| && Contains(s[k..], e)
    ensures Contains(s, e)
  {
  }

  lemma FrontClean(s: string, e: string)
    requires s != "" && !Contains(s, e)
    ensures !Contains(s[1..], e) && !(e <= s)
  {
    assert s[0..] == s && forall i | 0 <= i < |s| :: s[1..][i..] == s[1 + i..];
  }

  // The pass removes every occurrence of what it replaces.
  lemma {:induction false} ReplacedIsGone(s: string, from: string, to: string)
    requires from != "" && to != "" && Disjoint(to, from)
    ensures !Contains(ReplaceAll(s, from, to), from)
    decreases |s|
  {
    var out := ReplaceAll(s, from, to);
    forall i | 0 <= i <= |out| - |from| ensures !(from <= out[i..]) {
      assert from[0] in from && out[i..][0] == out[i];
      if from <= s {
        if i < |to| {
          assert out[i] == to[i] && to[i] in to;
        } else {
          ReplacedIsGone(s[|from|..], from, to);
          assert out[i..] == ReplaceAll(s[|from|..], from, to)[i - |to|..];
        }
      } else if i == 0 {
        assert out[0..] == out;
        if from <= out { PrefixNotCreated(s, from, to, from); }
      } else {
        ReplacedIsGone(s[1..], from, to);
        assert out[i..] == ReplaceAll(s[1..], from, to)[i - 1..];
      }
    }
  }

  lemma {:induction false} NothingToReplace(s: string, from: string, to: string)
    requires from != "" && !Contains(s, from)
    ensures ReplaceAll(s, from, to) == s
    decreases |s|
  {
    if s == "" {
    } else {
      FrontClean(s, from);
      NothingToReplace(s[1..], from, to);
    }
  }

  // A pass steps over plain text that has no percent sign.
  lemma {:induction false} SkipPlain(plain: string, s: string, e: string, to: string)
    requires e != "" && e[0] == '%' && forall c | c in plain :: !CodeChar(c)
    ensures ReplaceAll(plain + s, e, to) == plain + ReplaceAll(s, e, to)
    decreases |plain|
  {
    if plain == "" {
      assert plain + s == s;
    } else {
      assert (plain + s)[0] == plain[0] && plain[0] in plain;
      assert (plain + s)[1..] == plain[1..] + s;
      SkipPlain(plain[1..], s, e, to);
      assert [plain[0]] + (plain[1..] + ReplaceAll(s, e, to)) == plain + ReplaceAll(s, e, to);
    }
  }

  // ----- percent escapes -----

  function HexValue(c: char): int {
    if '0' <= c <= '9' then c as int - '0' as int
    else if 'A' <= c <= 'F' then c as int - 'A' as int + 10
    else -1
  }

  /** A percent sign and two hexadecimal digits, for the character with that code (section 2.1 of RFC 3986). */
  ghost predicate Spells(e: string, c: char) {
    && |e| == 3 && e[0] == '%' && HexValue(e[1]) >= 0 && HexValue(e[2]) >= 0
    && c as int == 16 * HexValue(e[1]) + HexValue(e[2])
  }

  /** The escapes of the characters of the text, one after the other. */
  ghost predicate SpellsText(e: string, text: string) {
    |e| == 3 * |text| && forall i | 0 <= i < |text| :: Spells(e[3 * i..3 * i + 3], text[i])
  }

  // ----- chains of passes -----

  datatype Pass = Pass(from: string, to: string)

  function ApplyAll(s: string, passes: seq<Pass>): string
    requires forall p | p in passes :: p.from != ""
    decreases |passes|
  {
    if passes == [] then s
    else ApplyAll(ReplaceAll(s, passes[0].from, passes[0].to), passes[1..])
  }

  /** No pass can write a character that any pass looks for. */
  predicate Inert(passes: seq<Pass>) {
    && (forall p | p in passes :: p.from != "" && p.to != "")
    && (forall p, q | p in passes && q in passes :: Disjoint(p.to, q.from))
  }

  predicate CodeChar(c: char) { c == '%' || '0' <= c <= '9' || 'A' <= c <= 'F' }

  /** A percent escape and the plain text it stands for. */
  predicate EscapePass(p: Pass) {
    && p.from != "" && p.to != ""
    && (forall c | c in p.from :: CodeChar(c))
    && (forall c | c in p.to :: !CodeChar(c))
  }

  lemma OneEscape(e: string, c: char)
    requires Spells(e, c)
    ensures SpellsText(e, [c])
  {
    assert e[0..3] == e;
  }

  lemma TwoEscapes(e: string, f: string, c: char, d: char)
    requires Spells(e, c) && Spells(f, d)
    ensures SpellsText(e + f, [c, d])
  {
    assert (e + f)[0..3] == e && (e + f)[3..6] == f;
  }

  lemma SpelledIsEscape(p: Pass)
    requires SpellsText(p.from, p.to) && p.to != "" && forall c | c in p.to :: !CodeChar(c)
    ensures EscapePass(p)
  {
    forall j | 0 <= j < |p.from| ensures CodeChar(p.from[j]) {
      var i := j / 3;
      assert Spells(p.from[3 * i..3 * i + 3], p.to[i]) && p.from[3 * i..3 * i + 3][j - 3 * i] == p.from[j];
    }
  }

  lemma EscapePassesAreInert(passes: seq<Pass>)
    requires forall p | p in passes :: EscapePass(p)
    ensures Inert(passes)
  {
  }

  lemma {:induction false} ChainCreatesNothing(s: string, passes: seq<Pass>, e: string)
    requires forall p | p in passes :: p.from != "" && p.to != "" && Disjoint(p.to, e)
    requires e != "" && Contains(ApplyAll(s, passes), e)
    ensures Contains(s, e)
    decreases |passes|
  {
    if passes == [] {
    } else {
      var p := passes[0];
      assert forall q | q in passes[1..] :: q in passes;
      ChainCreatesNothing(ReplaceAll(s, p.from, p.to), passes[1..], e);
      OccurrenceNotCreated(s, p.from, p.to, e);
    }
  }

  // Whatever the order and however the escapes overlap, none is left.
  lemma {:induction false} ChainLeavesNone(s: string, passes: seq<Pass>)
    requires Inert(passes)
    ensures forall p | p in passes :: !Contains(ApplyAll(s, passes), p.from)
    decreases |passes|
  {
    if passes == [] {
    } else {
      var head, rest := passes[0], passes[1..];
      assert head in passes && forall q | q in rest :: q in passes;
      var s' := ReplaceAll(s, head.from, head.to);
      ChainLeavesNone(s', rest);
      ReplacedIsGone(s, head.from, head.to);
      if Contains(ApplyAll(s', rest), head.from) {
        ChainCreatesNothing(s', rest, head.from);
      }
    }
  }

  lemma {:induction false} ChainFixesClean(s: string, passes: seq<Pass>)
    requires forall p | p in passes :: p.from != "" && !Contains(s, p.from)
    ensures ApplyAll(s, passes) == s
    decreases |passes|
  {
    if passes == [] {
    } else {
      NothingToReplace(s, passes[0].from, passes[0].to);
      ChainFixesClean(s, passes[1..]);
    }
  }

  lemma ChainIdempotent(s: string, passes: seq<Pass>)
    requires Inert(passes)
    ensures ApplyAll(ApplyAll(s, passes), passes) == ApplyAll(s, passes)
  {
    ChainLeavesNone(s, passes);
    ChainFixesClean(ApplyAll(s, passes), passes);
  }
}
