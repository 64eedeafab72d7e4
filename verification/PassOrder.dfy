// When two replacement passes over overlapping escapes may be exchanged.

module PassOrder {
  import opened Strings

  /** One percent-encoded character: a percent sign, then two code characters that are not one. */
  predicate Token(p: string) {
    |p| == 3 && p[0] == '%' && p[1] != '%' && p[2] != '%' && forall c | c in p :: CodeChar(c)
  }

  predicate PlainText(to: string) {
    to != "" && forall c | c in to :: !CodeChar(c)
  }

  /** Two different tokens, and what their two concatenations stand for. */
  predicate Overlapping(p: string, q: string, pq: string, qp: string) {
    Token(p) && Token(q) && p != q && PlainText(pq) && PlainText(qp)
  }

  /** First every `p + q`, then every `q + p`. */
  function Two(s: string, p: string, q: string, pq: string, qp: string): string
    requires Token(p) && Token(q)
  {
    ReplaceAll(ReplaceAll(s, p + q, pq), q + p, qp)
  }

  // ----- one pass over one token -----

  // A pass for an escape steps over a token at which the escape does not start.
  lemma SkipToken(p: string, t: string, from: string, to: string)
    requires Token(p) && from != "" && from[0] == '%' && !(from <= p + t)
    ensures ReplaceAll(p + t, from, to) == p + ReplaceAll(t, from, to)
  {
    hide ReplaceAll;
    var s := p + t;
    assert s[1..][0] == p[1] && s[2..][0] == p[2] && s[1..][1..] == s[2..] && s[2..][1..] == t;
    SkipFront(s, from, to);
    SkipFront(s[1..], from, to);
    SkipFront(s[2..], from, to);
    assert p == [p[0]] + ([p[1]] + [p[2]]);
  }

  lemma TakeFront(from: string, t: string, to: string)
    requires from != ""
    ensures ReplaceAll(from + t, from, to) == to + ReplaceAll(t, from, to)
  {
    assert (from + t)[|from|..] == t;
  }

  // A pass cannot put a token at the front.
  lemma TokenNotMade(t: string, from: string, to: string, q: string)
    requires from != "" && PlainText(to) && Token(q) && !(q <= t)
    ensures !(q <= ReplaceAll(t, from, to))
  {
    if q <= ReplaceAll(t, from, to) {
      PrefixNotCreated(t, from, to, q);
    }
  }

  // ----- occurrences, token by token -----

  lemma ContainsAfterChar(c: char, t: string, e: string)
    requires e != "" && !(e <= [c] + t)
    ensures Contains([c] + t, e) <==> Contains(t, e)
  {
    var s := [c] + t;
    if Contains(t, e) {
      assert s[1..] == t;
      OccurrenceInTail(s, 1, e);
    }
    if Contains(s, e) {
      var i :| 0 <= i <= |s| - |e| && e <= s[i..];
      assert s[0..] == s;
      assert s[i..] == t[i - 1..];
    }
  }

  lemma ContainsAfterToken(p: string, t: string, e: string)
    requires Token(p) && e != "" && e[0] == '%' && !(e <= p + t)
    ensures Contains(p + t, e) <==> Contains(t, e)
  {
    var t2 := [p[2]] + t;
    var t1 := [p[1]] + t2;
    assert p + t == [p[0]] + t1;
    ContainsAfterChar(p[2], t, e);
    ContainsAfterChar(p[1], t2, e);
    ContainsAfterChar(p[0], t1, e);
  }

  lemma PrefixOfConcat(p: string, q: string, t: string)
    ensures p + q <= p + t <==> q <= t
  {
    assert (p + t)[|p|..] == t;
    assert p + q <= p + t ==> (p + t)[|p|..][..|q|] == q;
  }

  // ----- the two orders -----

  /** The two texts whose middle token both escapes claim. */
  ghost predicate Clashes(s: string, p: string, q: string) {
    Contains(s, p + q + p) || Contains(s, q + p + q)
  }

  ghost predicate Agree(s: string, p: string, q: string, pq: string, qp: string)
    requires Token(p) && Token(q)
  {
    Two(s, p, q, pq, qp) == Two(s, q, p, qp, pq)
  }

  // A token p that q does not follow is stepped over by all four passes.
  lemma LoneToken(t: string, p: string, q: string, pq: string, qp: string)
    requires Overlapping(p, q, pq, qp) && !(q <= t)
    ensures Agree(p + t, p, q, pq, qp) <==> Agree(t, p, q, pq, qp)
    ensures Clashes(p + t, p, q) <==> Clashes(t, p, q)
  {
    hide ReplaceAll, Contains;
    var s := p + t;
    PrefixOfConcat(p, q, t);
    OtherToken(p, q, p, t);
    SkipToken(p, t, p + q, pq);
    SkipToken(p, t, q + p, qp);
    TokenNotMade(t, q + p, qp, q);
    PrefixOfConcat(p, q, ReplaceAll(t, q + p, qp));
    SkipToken(p, ReplaceAll(t, q + p, qp), p + q, pq);
    OtherToken(p, q, p, ReplaceAll(t, p + q, pq));
    SkipToken(p, ReplaceAll(t, p + q, pq), q + p, qp);
    SameFront(p, Two(t, p, q, pq, qp), Two(t, q, p, qp, pq));
    assert p + q + p == p + (q + p) && q + p + q == q + (p + q);
    PrefixOfConcat(p, q + p, t);
    OtherToken(p, q, p + q, t);
    ContainsAfterToken(p, t, p + q + p);
    ContainsAfterToken(p, t, q + p + q);
  }

  // Text that starts with p does not start with anything that starts with q.
  lemma OtherToken(p: string, q: string, rest: string, t: string)
    requires Token(p) && Token(q) && p != q
    ensures !(q + rest <= p + t)
  {
    assert (q + rest)[..3] == q && (p + t)[..3] == p;
    if q + rest <= p + t { FrontToken(p + t, q + rest); }
  }

  // The tokens p, q, then no p: both orders replace p + q.
  lemma FirstEscape(u: string, p: string, q: string, pq: string, qp: string)
    requires Overlapping(p, q, pq, qp) && !(p <= u)
    ensures Agree(p + (q + u), p, q, pq, qp) <==> Agree(u, p, q, pq, qp)
    ensures Clashes(p + (q + u), p, q) <==> Clashes(u, p, q)
  {
    hide ReplaceAll, Contains;
    ReplacedFirst(u, p, q, pq, qp);
    var y := ReplaceAll(u, q + p, qp);
    OtherToken(p, q, p, q + u);
    SkipToken(p, q + u, q + p, qp);
    PrefixOfConcat(q, p, u);
    SkipToken(q, u, q + p, qp);
    assert p + (q + y) == p + q + y;
    TakeFront(p + q, y, pq);
    SameFront(pq, Two(u, p, q, pq, qp), Two(u, q, p, qp, pq));
    assert p + q + p == p + (q + p) && q + p + q == q + (p + q);
    PrefixOfConcat(p, q + p, q + u);
    OtherToken(p, q, p + q, q + u);
    ContainsAfterToken(p, q + u, p + q + p);
    ContainsAfterToken(p, q + u, q + p + q);
    PrefixOfConcat(q, p + q, u);
    assert p + q <= u ==> p <= u;
    OtherToken(q, p, q + p, u);
    ContainsAfterToken(q, u, p + q + p);
    ContainsAfterToken(q, u, q + p + q);
  }

  lemma ReplacedFirst(u: string, p: string, q: string, pq: string, qp: string)
    requires Overlapping(p, q, pq, qp)
    ensures Two(p + (q + u), p, q, pq, qp) == pq + Two(u, p, q, pq, qp)
  {
    hide ReplaceAll;
    assert p + (q + u) == p + q + u;
    TakeFront(p + q, u, pq);
    SkipPlain(pq, ReplaceAll(u, p + q, pq), q + p, qp);
  }

  // The tokens p, q, p: the order decides which of the two escapes the middle one belongs to.
  lemma ClashingEscapes(v: string, p: string, q: string, pq: string, qp: string)
    requires Overlapping(p, q, pq, qp)
    ensures !Agree(p + (q + (p + v)), p, q, pq, qp)
    ensures Clashes(p + (q + (p + v)), p, q)
  {
    hide ReplaceAll;
    var s := p + (q + (p + v));
    ReplacedFirst(p + v, p, q, pq, qp);
    assert Two(s, p, q, pq, qp)[0] == pq[0] && pq[0] in pq && '%' in p;
    var y := ReplaceAll(v, q + p, qp);
    OtherToken(p, q, p, q + (p + v));
    SkipToken(p, q + (p + v), q + p, qp);
    assert q + (p + v) == q + p + v;
    TakeFront(q + p, v, qp);
    assert ReplaceAll(s, q + p, qp) == p + (qp + y);
    PrefixOfConcat(p, q, qp + y);
    assert (qp + y)[0] == qp[0] && qp[0] in qp && q[0] == '%' && q[0] in q;
    assert !(q <= qp + y);
    SkipToken(p, qp + y, p + q, pq);
    assert Two(s, q, p, qp, pq)[0] == '%';
    assert p + q + p <= s[0..];
  }

  /**
   * Exchanging two passes over the escapes `p + q` and `q + p` changes nothing exactly if the text has neither
   * `p + q + p` nor `q + p + q`.
   */
  lemma {:induction false} OrderIff(s: string, p: string, q: string, pq: string, qp: string)
    requires Overlapping(p, q, pq, qp)
    ensures Agree(s, p, q, pq, qp) <==> !Clashes(s, p, q)
    decreases |s|
  {
    if s == "" {
    } else if p <= s {
      OrderAtToken(s, p, q, pq, qp);
    } else if q <= s {
      OrderAtToken(s, q, p, qp, pq);
    } else {
      hide ReplaceAll, Contains, Overlapping;
      OrderIff(s[1..], p, q, pq, qp);
      OtherFront(s, p, q, pq, qp);
    }
  }

  lemma {:induction false} OrderAtToken(s: string, p: string, q: string, pq: string, qp: string)
    requires Overlapping(p, q, pq, qp) && p <= s
    ensures Agree(s, p, q, pq, qp) <==> !Clashes(s, p, q)
    decreases |s|, 0
  {
    hide ReplaceAll, Contains;
    var t := s[3..];
    assert s == p + t;
    if !(q <= t) {
      LoneToken(t, p, q, pq, qp);
      OrderIff(t, p, q, pq, qp);
    } else {
      var u := t[3..];
      assert t == q + u;
      if p <= u {
        assert u == p + u[3..];
        ClashingEscapes(u[3..], p, q, pq, qp);
      } else {
        FirstEscape(u, p, q, pq, qp);
        OrderIff(u, p, q, pq, qp);
      }
    }
  }

  // A character that starts neither token is stepped over by all four passes.
  lemma OtherFront(s: string, p: string, q: string, pq: string, qp: string)
    requires Overlapping(p, q, pq, qp) && s != "" && !(p <= s) && !(q <= s)
    ensures Agree(s, p, q, pq, qp) <==> Agree(s[1..], p, q, pq, qp)
    ensures Clashes(s, p, q) <==> Clashes(s[1..], p, q)
  {
    hide ReplaceAll, Contains;
    SteppedOver(s, p, q, pq, qp);
    SteppedOver(s, q, p, qp, pq);
    SameFront([s[0]], Two(s[1..], p, q, pq, qp), Two(s[1..], q, p, qp, pq));
    assert s == [s[0]] + s[1..];
    StartsWithFirst(s, p, q + p);
    StartsWithFirst(s, q, p + q);
    assert p + q + p == p + (q + p) && q + p + q == q + (p + q);
    ContainsAfterChar(s[0], s[1..], p + q + p);
    ContainsAfterChar(s[0], s[1..], q + p + q);
  }

  lemma StartsWithFirst(s: string, p: string, rest: string)
    requires !(p <= s)
    ensures !(p + rest <= s)
  {
    if p + rest <= s { ShorterPrefix(s, p, rest); }
  }

  lemma ShorterPrefix(s: string, p: string, rest: string)
    requires p + rest <= s
    ensures p <= s
  {
    assert s[..|p + rest|][..|p|] == p;
  }

  lemma SteppedOver(s: string, p: string, q: string, pq: string, qp: string)
    requires Overlapping(p, q, pq, qp) && s != "" && !(p <= s) && !(q <= s)
    ensures Two(s, p, q, pq, qp) == [s[0]] + Two(s[1..], p, q, pq, qp)
  {
    hide ReplaceAll;
    StartsWithFirst(s, p, q);
    SkipFront(s, p + q, pq);
    var out := ReplaceAll(s, p + q, pq);
    TokenNotMade(s, p + q, pq, q);
    StartsWithFirst(out, q, p);
    SkipFront(out, q + p, qp);
    assert out[1..] == ReplaceAll(s[1..], p + q, pq);
  }

  // ----- passes that neither make nor break an occurrence -----

  /** Every percent sign of `from` starts a token of it, and that token is not `x`. */
  predicate Without(from: string, x: string) {
    forall d | 0 <= d < |from| && from[d] == '%' :: d + 3 <= |from| && from[d..d + 3] != x
  }

  /** An escape whose tokens are none of those of e. */
  ghost predicate Foreign(from: string, e: string)
    decreases |e|
  {
    e == "" || (|e| >= 3 && Token(e[..3]) && Without(from, e[..3]) && Foreign(from, e[3..]))
  }

  lemma FirstTokenDiffers(s: string, from: string, x: string)
    requires from != "" && from[0] == '%' && Without(from, x) && x <= s && |x| == 3
    ensures !(from <= s)
  {
    assert from[0..0 + 3] != x && s[..3] == x;
    if from <= s { FrontToken(s, from); }
  }

  lemma FrontToken(s: string, from: string)
    requires from <= s && |from| >= 3
    ensures from[..3] == s[..3]
  {
  }

  lemma {:induction false} PrefixKept(s: string, from: string, to: string, e: string)
    requires from != "" && from[0] == '%' && Foreign(from, e) && e <= s
    ensures e <= ReplaceAll(s, from, to)
    decreases |e|
  {
    if e == "" {
    } else {
      var x, t := e[..3], s[3..];
      assert s == x + t && s[..3] == x;
      FirstTokenDiffers(s, from, x);
      SkipToken(x, t, from, to);
      PrefixKept(t, from, to, e[3..]);
      assert e == x + e[3..];
    }
  }

  lemma {:induction false} OccurrenceKept(s: string, from: string, to: string, e: string)
    requires from != "" && from[0] == '%' && e != "" && Foreign(from, e) && Contains(s, e)
    ensures Contains(ReplaceAll(s, from, to), e)
    decreases |s|
  {
    var i :| 0 <= i <= |s| - |e| && e <= s[i..];
    var out := ReplaceAll(s, from, to);
    if from <= s {
      NotInside(s, from, e, i);
      assert s[|from|..][i - |from|..] == s[i..];
      OccurrenceKept(s[|from|..], from, to, e);
      assert out[|to|..] == ReplaceAll(s[|from|..], from, to);
      OccurrenceInTail(out, |to|, e);
    } else if i == 0 {
      assert s[0..] == s;
      PrefixKept(s, from, to, e);
      assert e <= out[0..];
    } else {
      assert s[1..][i - 1..] == s[i..];
      OccurrenceKept(s[1..], from, to, e);
      assert out[1..] == ReplaceAll(s[1..], from, to);
      OccurrenceInTail(out, 1, e);
    }
  }

  lemma NotInside(s: string, from: string, e: string, i: nat)
    requires e != "" && Foreign(from, e) && from <= s && i + |e| <= |s| && e <= s[i..]
    ensures |from| <= i
  {
    if i < |from| {
      assert s[i] == s[i..][0] == e[0] == '%';
      TokenInside(s, from, e, i);
    }
  }

  lemma TokenInside(s: string, from: string, e: string, i: nat)
    requires |e| >= 3 && from <= s && i + |e| <= |s| && e <= s[i..] && i + 3 <= |from|
    ensures from[i..i + 3] == e[..3]
  {
    assert from[i..i + 3] == s[i..i + 3] == s[i..][..3] == e[..3];
  }

  /** A pass for a foreign escape leaves the occurrences of e as they are. */
  lemma SameOccurrences(s: string, from: string, to: string, e: string)
    requires from != "" && from[0] == '%' && PlainText(to) && e != "" && Foreign(from, e)
    requires forall c | c in e :: CodeChar(c)
    ensures Contains(ReplaceAll(s, from, to), e) <==> Contains(s, e)
  {
    if Contains(s, e) {
      OccurrenceKept(s, from, to, e);
    }
    if Contains(ReplaceAll(s, from, to), e) {
      OccurrenceNotCreated(s, from, to, e);
    }
  }
}
