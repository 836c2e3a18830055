/** Unmasking undoes masking, and re-masking leaves no original behind.

    A masked text is a sequence of pieces: text copied from the request, and tokens
    that stand for a matched original. `Render` is what is sent, `Restore` what was
    received; masking only turns copied text into tokens, unmasking tokens into text. */
module RoundTrip {
  import opened ByteStrings
  import opened Masking

  datatype Piece = Plain(text: Bytes) | Token(masked: Bytes, original: Bytes)

  function Shown(p: Piece): Bytes {
    match p case Plain(t) => t case Token(m, _) => m
  }

  function Kept(p: Piece): Bytes {
    match p case Plain(t) => t case Token(_, o) => o
  }

  function Render(ps: seq<Piece>): Bytes {
    if ps == [] then [] else Shown(ps[0]) + Render(ps[1..])
  }

  function Restore(ps: seq<Piece>): Bytes {
    if ps == [] then [] else Kept(ps[0]) + Restore(ps[1..])
  }

  /** The tokens of `ps`. */
  ghost function TokenSet(ps: seq<Piece>): (ts: set<Piece>)
    ensures forall p :: p in ts ==> p.Token?
  {
    if ps == [] then {}
    else (if ps[0].Token? then {ps[0]} else {}) + TokenSet(ps[1..])
  }

  ghost predicate TokensBracketed(ps: seq<Piece>) {
    forall p :: p in TokenSet(ps) ==> Bracketed(p.masked)
  }

  /** Every token is one of the entries. */
  ghost predicate TokensFrom(ps: seq<Piece>, entries: seq<MaskEntry>) {
    forall p :: p in TokenSet(ps) ==> IsEntry(p, entries)
  }

  ghost predicate IsEntry(p: Piece, entries: seq<MaskEntry>)
    requires p.Token?
  {
    exists j :: 0 <= j < |entries| && entries[j].masked == p.masked && entries[j].original == p.original
  }

  lemma RenderCons(p: Piece, ps: seq<Piece>)
    ensures Render([p] + ps) == Shown(p) + Render(ps)
    ensures Restore([p] + ps) == Kept(p) + Restore(ps)
    ensures TokenSet([p] + ps) == (if p.Token? then {p} else {}) + TokenSet(ps)
  {
  }

  lemma RenderSingle(p: Piece)
    ensures Render([p]) == Shown(p) && Restore([p]) == Kept(p)
    ensures TokenSet([p]) == if p.Token? then {p} else {}
  {
  }

  lemma {:induction false} RenderConcat(a: seq<Piece>, b: seq<Piece>)
    ensures Render(a + b) == Render(a) + Render(b)
    ensures Restore(a + b) == Restore(a) + Restore(b)
    ensures TokenSet(a + b) == TokenSet(a) + TokenSet(b)
    decreases |a|
  {
    if a == [] {
      assert a + b == b;
    } else {
      RenderConcat(a[1..], b);
      assert a + b == [a[0]] + (a[1..] + b);
      RenderCons(a[0], a[1..] + b);
      Assoc(Shown(a[0]), Render(a[1..]), Render(b));
      Assoc(Kept(a[0]), Restore(a[1..]), Restore(b));
    }
  }

  // ---------------------------------------------------------------------
  // Unmasking one entry turns its tokens into text
  // ---------------------------------------------------------------------

  function Reveal(ps: seq<Piece>, m: Bytes): seq<Piece> {
    if ps == [] then []
    else
      [if ps[0].Token? && ps[0].masked == m then Plain(ps[0].original) else ps[0]] + Reveal(ps[1..], m)
  }

  lemma {:induction false} RevealTokens(ps: seq<Piece>, m: Bytes)
    ensures TokenSet(Reveal(ps, m)) == set p | p in TokenSet(ps) && p.masked != m
    decreases |ps|
  {
    if ps == [] {
    } else {
      RevealTokens(ps[1..], m);
    }
  }

  /** Text without `[` at the front of a rendering comes from copied text. */
  lemma {:induction false} OpenFreePrefix(v: Bytes, ps: seq<Piece>)
    requires OPEN !in v && TokensBracketed(ps) && v <= Render(ps)
    ensures v <= Restore(ps)
    decreases |ps|
  {
    if v == [] {
    } else {
      if ps[0].Token? {
        assert ps[0] in TokenSet(ps);
        BracketedEnds(ps[0].masked);
      }
      assert Render(ps)[0] == v[0] && v[0] in v;
      if ps[0].Plain? {
        var t := ps[0].text;
        if |t| < |v| {
          var w := v[|t|..];
          assert Render(ps)[|t|..] == Render(ps[1..]);
          assert w <= Render(ps[1..]);
          OpenFreePrefix(w, ps[1..]);
          assert v == t + w;
        } else {
          assert v == t[..|v|];
        }
      }
    }
  }

  /** A placeholder that starts in copied text is a substring of the original text. */
  lemma PlaceholderInPlain(m: Bytes, t: Bytes, rest: seq<Piece>, q: int)
    requires Bracketed(m) && TokensBracketed(rest)
    requires 0 <= q < |t| && OccursAt(m, t + Render(rest), q)
    ensures Infix(m, t + Restore(rest))
  {
    hide Render, Restore, TokenSet;
    if q + |m| > |t| {
      var n := |t| - q;
      OccurrenceAcross(m, t, Render(rest), q);
      BracketedEnds(m);
      OpenFreePrefix(m[n..], rest);
      OccurrenceJoined(m, t, Restore(rest), q);
    } else {
      assert OccursAt(m, t + Restore(rest), q) by {
        assert (t + Render(rest))[q..q + |m|] == t[q..q + |m|] == (t + Restore(rest))[q..q + |m|];
      }
    }
  }

  lemma OccurrenceAcross(m: Bytes, t: Bytes, r: Bytes, q: int)
    requires 0 <= q < |t| < q + |m| && OccursAt(m, t + r, q)
    ensures m[..|t| - q] == t[q..] && m[|t| - q..] <= r
  {
  }

  lemma OccurrenceJoined(m: Bytes, t: Bytes, r: Bytes, q: int)
    requires 0 <= q < |t| < q + |m| && m[..|t| - q] == t[q..] && m[|t| - q..] <= r
    ensures OccursAt(m, t + r, q)
  {
    var n := |t| - q;
    assert (t + r)[q..q + |m|] == t[q..] + r[..|m| - n] == m[..n] + m[n..];
  }

  /** A placeholder that starts within another one is that one. */
  lemma StartsInToken(m: Bytes, t: Bytes, rest: Bytes, q: int)
    requires Bracketed(m) && Bracketed(t) && 0 <= q < |t| && OccursAt(m, t + rest, q)
    ensures m == t
  {
    var s := t + rest;
    OccurrenceBytes(m, s, q);
    BracketedEnds(m);
    BracketedEnds(t);
    assert s[q] == m[0] == OPEN;
    assert q == 0;
    assert s[|m| - 1] == m[|m| - 1] == CLOSE;
    assert s[|t| - 1] == t[|t| - 1] == CLOSE;
    assert |m| == |t|;
    assert s[0..|m|] == t;
  }

  /** Replacing placeholder `m` in a rendering reveals exactly the tokens of `m`, provided
      `m` was no part of the original text. */
  lemma {:induction false} ReplaceReveals(ps: seq<Piece>, m: Bytes, o: Bytes)
    requires Bracketed(m) && TokensBracketed(ps) && !Infix(m, Restore(ps))
    requires forall p :: p in TokenSet(ps) && p.masked == m ==> p.original == o
    ensures ReplaceAll(Render(ps), m, o) == Render(Reveal(ps, m))
    ensures Restore(Reveal(ps, m)) == Restore(ps)
    decreases |ps|
  {
    if ps == [] {
    } else {
      var rest := ps[1..];
      match ps[0]
      case Token(t, orig) =>
        assert Restore(ps)[|orig|..] == Restore(rest);
        if Infix(m, Restore(rest)) { InfixOfTail(m, Restore(ps), |orig|); }
        ReplaceReveals(rest, m, o);
        assert Render(ps)[|t|..] == Render(rest);
        if t == m {
        } else {
          forall q | 0 <= q < |t| ensures !OccursAt(m, Render(ps), q) {
            if OccursAt(m, Render(ps), q) { StartsInToken(m, t, Render(rest), q); }
          }
          ReplaceSkips(Render(ps), |t|, m, o);
        }
      case Plain(t) =>
        assert Restore(ps)[|t|..] == Restore(rest);
        if Infix(m, Restore(rest)) { InfixOfTail(m, Restore(ps), |t|); }
        ReplaceReveals(rest, m, o);
        assert Render(ps)[|t|..] == Render(rest);
        forall q | 0 <= q < |t| ensures !OccursAt(m, Render(ps), q) {
          if OccursAt(m, Render(ps), q) { PlaceholderInPlain(m, t, rest, q); }
        }
        ReplaceSkips(Render(ps), |t|, m, o);
    }
  }

  ghost predicate MasksDistinct(entries: seq<MaskEntry>) {
    forall i, j :: 0 <= i < j < |entries| ==> entries[i].masked != entries[j].masked
  }

  ghost predicate MasksBracketed(entries: seq<MaskEntry>) {
    forall i :: 0 <= i < |entries| ==> Bracketed(entries[i].masked)
  }

  ghost predicate MasksAbsent(entries: seq<MaskEntry>, s: Bytes) {
    forall i :: 0 <= i < |entries| ==> !Infix(entries[i].masked, s)
  }

  /** Unmasking all entries restores the original text. */
  lemma {:induction false} UnmaskRestores(ps: seq<Piece>, entries: seq<MaskEntry>)
    requires MasksBracketed(entries) && MasksDistinct(entries)
    requires TokensFrom(ps, entries) && MasksAbsent(entries, Restore(ps))
    ensures Unmasked(Render(ps), entries) == Restore(ps)
    decreases |entries|
  {
    if entries == [] {
      assert TokenSet(ps) == {};
      AllPlain(ps);
    } else {
      var e := entries[0];
      forall p | p in TokenSet(ps) ensures Bracketed(p.masked) && (p.masked == e.masked ==> p.original == e.original) {
        assert IsEntry(p, entries);
      }
      ReplaceReveals(ps, e.masked, e.original);
      RevealTokens(ps, e.masked);
      var rs := Reveal(ps, e.masked);
      forall p | p in TokenSet(rs) ensures IsEntry(p, entries[1..]) {
        EntryBehind(p, entries);
      }
      assert MasksAbsent(entries[1..], Restore(rs));
      UnmaskRestores(rs, entries[1..]);
    }
  }

  lemma EntryBehind(p: Piece, entries: seq<MaskEntry>)
    requires p.Token? && entries != [] && IsEntry(p, entries) && p.masked != entries[0].masked
    ensures IsEntry(p, entries[1..])
  {
    var j :| 0 <= j < |entries| && entries[j].masked == p.masked && entries[j].original == p.original;
    assert entries[1..][j - 1] == entries[j];
  }

  // ---------------------------------------------------------------------
  // Masking one rule turns text into tokens
  // ---------------------------------------------------------------------

  /** Where the tokens of `ps` lie in a text in which the rendering starts at byte `at`. */
  ghost function Ranges(ps: seq<Piece>, at: nat): set<Span>
    decreases |ps|
  {
    if ps == [] then {}
    else
      var next := at + |Shown(ps[0])|;
      (if ps[0].Token? then {Span(at, next)} else {}) + Ranges(ps[1..], next)
  }

  /** The byte range `lo..hi` overlaps none of the ranges and lies inside none. */
  ghost predicate Clear(lo: int, hi: int, ranges: set<Span>) {
    forall r :: r in ranges ==> hi <= r.lo || r.hi <= lo
  }

  lemma {:induction false} AllPlain(ps: seq<Piece>)
    requires TokenSet(ps) == {}
    ensures Render(ps) == Restore(ps)
    decreases |ps|
  {
    if ps == [] {
    } else {
      assert ps[0] !in TokenSet(ps);
      assert TokenSet(ps[1..]) <= TokenSet(ps);
      AllPlain(ps[1..]);
    }
  }

  /** `a` and `b` together carry the same text and no token that `ps` has not. */
  ghost predicate Splits(ps: seq<Piece>, a: seq<Piece>, b: seq<Piece>) {
    && Render(a) + Render(b) == Render(ps)
    && Restore(a) + Restore(b) == Restore(ps)
    && TokenSet(a) <= TokenSet(ps) && TokenSet(b) <= TokenSet(ps)
  }

  lemma SplitText(t: Bytes, rest: seq<Piece>, at: nat, cut: nat)
    requires at <= cut <= at + |t|
    ensures Splits([Plain(t)] + rest, [Plain(t[..cut - at])], [Plain(t[cut - at..])] + rest)
    ensures |Render([Plain(t[..cut - at])])| == cut - at
    ensures Ranges([Plain(t[cut - at..])] + rest, cut) == Ranges([Plain(t)] + rest, at)
  {
  }

  lemma SplitCons(p: Piece, ps: seq<Piece>, a: seq<Piece>, b: seq<Piece>)
    requires Splits(ps, a, b)
    ensures Splits([p] + ps, [p] + a, b)
  {
  }

  lemma RangesCons(p: Piece, ps: seq<Piece>, at: nat)
    ensures Ranges([p] + ps, at)
            == (if p.Token? then {Span(at, at + |Shown(p)|)} else {}) + Ranges(ps, at + |Shown(p)|)
  {
  }

  /** Splitting the pieces at byte `cut` of the text, which is not inside a token. */
  lemma {:induction false} SplitAt(ps: seq<Piece>, at: nat, cut: nat) returns (a: seq<Piece>, b: seq<Piece>)
    requires at <= cut <= at + |Render(ps)| && Clear(cut, cut, Ranges(ps, at))
    ensures |Render(a)| == cut - at && Splits(ps, a, b) && Ranges(b, cut) <= Ranges(ps, at)
    decreases |ps|
  {
    if ps == [] || cut == at {
      a, b := [], ps;
    } else {
      var p, rest := ps[0], ps[1..];
      assert ps == [p] + rest;
      RangesCons(p, rest, at);
      var next := at + |Shown(p)|;
      assert p.Token? ==> Span(at, next) in Ranges(ps, at);
      if cut < next {
        SplitText(p.text, rest, at, cut);
        a, b := [Plain(p.text[..cut - at])], [Plain(p.text[cut - at..])] + rest;
      } else {
        var c;
        c, b := SplitAt(rest, next, cut);
        SplitCons(p, rest, c, b);
        a := [p] + c;
        RenderCons(p, c);
      }
    }
  }

  /** Splitting off a clear range at the front: it is copied text. */
  lemma {:induction false} SplitOff(ps: seq<Piece>, at: nat, cut: nat) returns (a: seq<Piece>, b: seq<Piece>)
    requires TokensBracketed(ps) && at <= cut <= at + |Render(ps)| && Clear(at, cut, Ranges(ps, at))
    ensures |Render(a)| == cut - at && Splits(ps, a, b) && Ranges(b, cut) <= Ranges(ps, at)
    ensures TokenSet(a) == {}
    decreases |ps|
  {
    if ps == [] || cut == at {
      a, b := [], ps;
    } else {
      var p, rest := ps[0], ps[1..];
      assert ps == [p] + rest;
      RangesCons(p, rest, at);
      var next := at + |Shown(p)|;
      assert p.Token? ==> p in TokenSet(ps);
      assert p.Plain?;
      if cut < next {
        SplitText(p.text, rest, at, cut);
        a, b := [Plain(p.text[..cut - at])], [Plain(p.text[cut - at..])] + rest;
      } else {
        var c;
        assert TokenSet(rest) <= TokenSet(ps);
        c, b := SplitOff(rest, next, cut);
        SplitCons(p, rest, c, b);
        a := [p] + c;
        RenderCons(p, c);
      }
    }
  }

  ghost predicate RestoresAround(ps: seq<Piece>, a: seq<Piece>, original: Bytes, c: seq<Piece>) {
    Restore(ps) == Restore(a) + (original + Restore(c))
  }

  /** Replacing a match: `a` before it, `c` after it, copied text in between. */
  lemma {:induction false} TokenStep(ps: seq<Piece>, s: Span, at: nat) returns (a: seq<Piece>, c: seq<Piece>)
    requires TokensBracketed(ps) && at <= s.lo <= s.hi <= at + |Render(ps)| && Clear(s.lo, s.hi, Ranges(ps, at))
    ensures Render(a) == Render(ps)[..s.lo - at] && Render(c) == Render(ps)[s.hi - at..]
    ensures RestoresAround(ps, a, Render(ps)[s.lo - at..s.hi - at], c)
    ensures TokenSet(a) <= TokenSet(ps) && TokenSet(c) <= TokenSet(ps)
    ensures Ranges(c, s.hi) <= Ranges(ps, at)
  {
    hide Render, Restore, TokenSet, Ranges;
    var b, mid;
    a, b := SplitAt(ps, at, s.lo);
    mid, c := SplitOff(b, s.lo, s.hi);
    AllPlain(mid);
    MiddleText(Render(ps), Render(a), Render(mid), Render(c), s.lo - at, s.hi - at,
               Restore(ps), Restore(a), Restore(b), Restore(c));
  }

  lemma MiddleText(r: Bytes, a: Bytes, mid: Bytes, c: Bytes, lo: nat, hi: nat,
                   t: Bytes, ta: Bytes, tb: Bytes, tc: Bytes)
    requires lo <= hi && |a| == lo && |mid| == hi - lo && r == a + (mid + c)
    requires t == ta + tb && tb == mid + tc
    ensures a == r[..lo] && c == r[hi..]
    ensures t == ta + (r[lo..hi] + tc)
  {
  }

  /** The token that stands for a match of a rule with these labels. */
  function TokenFor(o: Bytes, labels: map<Bytes, Bytes>): Piece
    requires o in labels
  {
    Token(labels[o], o)
  }

  /** `news` holds the token of every original. */
  ghost predicate HasTokens(news: set<Piece>, labels: map<Bytes, Bytes>) {
    forall o :: o in labels ==> TokenFor(o, labels) in news
  }

  /** The pieces after `n` matches: `front` is rewritten, `back` still to come. */
  ghost predicate RewrittenText(ps: seq<Piece>, content: Bytes, spans: seq<Span>, labels: map<Bytes, Bytes>, n: nat,
                                front: seq<Piece>, back: seq<Piece>)
    requires SpansOk(spans, |content|) && n <= |spans| && Labelled(content, spans, labels)
  {
    && Render(front) == Rewritten(content, spans, labels, n)
    && Render(back) == content[PrevEnd(spans, n)..]
    && Restore(ps) == Restore(front) + Restore(back)
  }

  /** Which tokens the two parts have. */
  ghost predicate RewrittenTokens(ps: seq<Piece>, news: set<Piece>, at: nat, front: seq<Piece>, back: seq<Piece>) {
    && TokenSet(back) <= TokenSet(ps) && Ranges(back, at) <= Ranges(ps, 0)
    && TokenSet(front) <= TokenSet(ps) + news
  }

  lemma {:induction false} RewriteStep(ps: seq<Piece>, content: Bytes, spans: seq<Span>, labels: map<Bytes, Bytes>,
                                       news: set<Piece>,
                    n: nat, front: seq<Piece>, back: seq<Piece>)
    returns (front': seq<Piece>, back': seq<Piece>)
    requires SpansOk(spans, |content|) && n < |spans| && Labelled(content, spans, labels) && TokensBracketed(ps)
    requires RewrittenText(ps, content, spans, labels, n, front, back)
    requires RewrittenTokens(ps, news, PrevEnd(spans, n), front, back) && HasTokens(news, labels)
    requires Clear(spans[n].lo, spans[n].hi, Ranges(ps, 0))
    ensures RewrittenText(ps, content, spans, labels, n + 1, front', back')
    ensures RewrittenTokens(ps, news, PrevEnd(spans, n + 1), front', back')
  {
    hide Render, Restore, TokenSet, Ranges, Rewritten;
    var t := TokenFor(Slice(content, spans[n]), labels);
    var a;
    a, back' := CutMatch(ps, news, content, PrevEnd(spans, n), spans[n], front, back);
    front' := front + (a + [t]);
    RewriteStepText(ps, content, spans, labels, n, front, back, a, back');
    AppendToken(front, a, t);
  }

  /** Cutting the next match out of the pieces still to come. */
  lemma CutMatch(ps: seq<Piece>, news: set<Piece>, content: Bytes, at: nat, s: Span, front: seq<Piece>,
                 back: seq<Piece>)
    returns (a: seq<Piece>, back': seq<Piece>)
    requires at <= s.lo <= s.hi <= |content| && TokensBracketed(ps)
    requires RewrittenTokens(ps, news, at, front, back) && Clear(s.lo, s.hi, Ranges(ps, 0))
    requires Render(back) == content[at..]
    ensures Render(a) == content[at..s.lo] && Render(back') == content[s.hi..]
    ensures RestoresAround(back, a, Slice(content, s), back')
    ensures TokenSet(a) <= TokenSet(ps) && TokenSet(back') <= TokenSet(ps) && Ranges(back', s.hi) <= Ranges(ps, 0)
  {
    hide Render, Restore, TokenSet, Ranges;
    a, back' := TokenStep(back, s, at);
    SliceOfTail(content, at, s.lo, s.hi);
  }

  lemma RewriteStepText(ps: seq<Piece>, content: Bytes, spans: seq<Span>, labels: map<Bytes, Bytes>, n: nat,
                        front: seq<Piece>, back: seq<Piece>, a: seq<Piece>, back': seq<Piece>)
    requires SpansOk(spans, |content|) && n < |spans| && Labelled(content, spans, labels)
    requires RewrittenText(ps, content, spans, labels, n, front, back)
    requires Render(a) == content[PrevEnd(spans, n)..spans[n].lo]
    requires Render(back') == content[spans[n].hi..]
    requires RestoresAround(back, a, Slice(content, spans[n]), back')
    ensures RewrittenText(ps, content, spans, labels, n + 1,
                          front + (a + [TokenFor(Slice(content, spans[n]), labels)]), back')
  {
    var t := TokenFor(Slice(content, spans[n]), labels);
    AppendToken(front, a, t);
    Regroup(Restore(front), Restore(a), t.original, Restore(back'), Restore(back), Restore(ps));
  }

  lemma AppendToken(front: seq<Piece>, a: seq<Piece>, t: Piece)
    requires t.Token?
    ensures Render(front + (a + [t])) == Render(front) + Render(a) + t.masked
    ensures Restore(front + (a + [t])) == Restore(front) + Restore(a) + t.original
    ensures TokenSet(front + (a + [t])) == TokenSet(front) + TokenSet(a) + {t}
  {
    RenderConcat(front, a + [t]);
    RenderConcat(a, [t]);
    RenderSingle(t);
    hide Render, Restore, TokenSet;
    Assoc(Render(front), Render(a), t.masked);
    Assoc(Restore(front), Restore(a), t.original);
  }

  lemma Regroup(x: Bytes, a: Bytes, o: Bytes, c: Bytes, b: Bytes, all: Bytes)
    requires all == x + b && b == a + (o + c)
    ensures all == (x + a + o) + c
  {
  }

  lemma SliceOfTail(r: Bytes, at: nat, lo: nat, hi: nat)
    requires at <= lo <= hi <= |r|
    ensures r[at..][..lo - at] == r[at..lo]
    ensures r[at..][lo - at..hi - at] == r[lo..hi]
    ensures r[at..][hi - at..] == r[hi..]
  {
  }

  lemma {:induction false} RewriteUpTo(ps: seq<Piece>, content: Bytes, spans: seq<Span>, labels: map<Bytes, Bytes>,
                                       news: set<Piece>, n: nat)
    returns (front: seq<Piece>, back: seq<Piece>)
    requires SpansOk(spans, |content|) && n <= |spans| && Labelled(content, spans, labels) && TokensBracketed(ps)
    requires Render(ps) == content && HasTokens(news, labels)
    requires forall k :: 0 <= k < |spans| ==> Clear(spans[k].lo, spans[k].hi, Ranges(ps, 0))
    ensures RewrittenText(ps, content, spans, labels, n, front, back)
    ensures RewrittenTokens(ps, news, PrevEnd(spans, n), front, back)
  {
    if n == 0 {
      front, back := [], ps;
      assert content[0..] == content;
      assert [] + Restore(ps) == Restore(ps);
    } else {
      hide Render, Restore, TokenSet, Ranges, Rewritten, Clear;
      var f, b := RewriteUpTo(ps, content, spans, labels, news, n - 1);
      front, back := RewriteStep(ps, content, spans, labels, news, n - 1, f, b);
    }
  }

  // ---------------------------------------------------------------------
  // The whole pipeline of rules
  // ---------------------------------------------------------------------

  /** The names in the placeholders of a list of rules. */
  ghost function Tags(rules: seq<CompiledRule>, upper: Upper): set<Bytes> {
    if rules == [] then {}
    else Tags(rules[..|rules| - 1], upper) + {Label(upper, rules[|rules| - 1].name)}
  }

  /** Sanitized rule names are bracket-free and pairwise different. */
  ghost predicate LabelsOk(rules: seq<CompiledRule>, upper: Upper) {
    rules == [] ||
    var n := |rules| - 1;
    var tag := Label(upper, rules[n].name);
    LabelsOk(rules[..n], upper) && BracketFree(tag) && tag !in Tags(rules[..n], upper)
  }

  /** No match of a rule overlaps a placeholder put there by an earlier rule. */
  ghost predicate NoMatchTouches(before: MaskResult, spans: seq<Span>) {
    forall k, i, q :: 0 <= k < |spans| && 0 <= i < |before.entries|
                      && OccursAt(before.entries[i].masked, before.content, q)
      ==> spans[k].hi <= q || q + |before.entries[i].masked| <= spans[k].lo
  }

  ghost predicate MatchesClear(content: Bytes, rules: seq<CompiledRule>, upper: Upper) {
    rules == [] ||
    var n := |rules| - 1;
    var before := Masked(content, rules[..n], upper);
    MatchesClear(content, rules[..n], upper) && NoMatchTouches(before, Matches(before.content, rules[n]))
  }

  /** The entry's placeholder carries one of the names. */
  ghost predicate Tagged(e: MaskEntry, tags: set<Bytes>) {
    exists t, i: nat :: t in tags && e.masked == Placeholder(t, i)
  }

  ghost predicate AllTagged(es: seq<MaskEntry>, tags: set<Bytes>) {
    forall k :: 0 <= k < |es| ==> Tagged(es[k], tags)
  }

  lemma IndexOfDistinct(os: seq<Bytes>, i: int)
    requires 0 <= i < |os| && forall j, k :: 0 <= j < k < |os| ==> os[j] != os[k]
    ensures IndexIn(os[i], os) == i
  {
  }

  /** The `i`-th entry of a rule has the `i`-th distinct original and number. */
  lemma {:induction false} RuleEntries(content: Bytes, spans: seq<Span>, maskType: Bytes, tag: Bytes, i: int)
    requires SpansOk(spans, |content|)
    requires 0 <= i < |MaskMatches(content, spans, maskType, tag).entries|
    ensures var os := Originals(content, spans, |spans|);
            && |os| == |MaskMatches(content, spans, maskType, tag).entries|
            && MaskMatches(content, spans, maskType, tag).entries[i]
                == MaskEntry(maskType, os[i], Placeholder(tag, i + 1))
  {
    hide Rewritten, Placeholder, Originals, IndexIn;
    OriginalsCover(content, spans, |spans|);
    var os := Originals(content, spans, |spans|);
    OriginalsExact(content, spans, |spans|);
    IndexOfDistinct(os, i);
    assert os[i] in os;
    assert MaskMatches(content, spans, maskType, tag).entries == EntriesFor(maskType, os, Labels(tag, os));
  }

  /** Numbering of one rule's entries. */
  ghost predicate NumberedFrom(es: seq<MaskEntry>, tag: Bytes) {
    forall i :: 0 <= i < |es| ==> es[i].masked == Placeholder(tag, i + 1)
  }

  lemma NumberedDistinct(es: seq<MaskEntry>, tag: Bytes)
    requires NumberedFrom(es, tag) && BracketFree(tag)
    ensures MasksBracketed(es) && MasksDistinct(es)
  {
    hide Placeholder, Bracketed;
    forall i | 0 <= i < |es| ensures Bracketed(es[i].masked) {
      PlaceholderIsBracketed(tag, i + 1);
    }
    forall i, j | 0 <= i < j < |es| ensures es[i].masked != es[j].masked {
      if es[i].masked == es[j].masked { PlaceholderInjective(tag, i + 1, tag, j + 1); }
    }
  }

  lemma {:induction false} EntriesOfRule(content: Bytes, rule: CompiledRule, upper: Upper)
    ensures NumberedFrom(MaskRule(content, rule, upper).entries, Label(upper, rule.name))
  {
    hide MaskMatches, Placeholder, Matches, Label;
    var spans, tag := Matches(content, rule), Label(upper, rule.name);
    var es := MaskRule(content, rule, upper).entries;
    forall i | 0 <= i < |es| ensures es[i].masked == Placeholder(tag, i + 1) {
      RuleEntries(content, spans, RuleName(rule.name), tag, i);
    }
  }

  /** The entries of a rule: the distinct originals in order of appearance, each with the name of
      the rule, "rule" for none, and the placeholder of its number. */
  lemma {:induction false} EntryOfRule(content: Bytes, rule: CompiledRule, upper: Upper, i: int)
    requires 0 <= i < |MaskRule(content, rule, upper).entries|
    ensures var spans := Matches(content, rule);
            var os := Originals(content, spans, |spans|);
            && |os| == |MaskRule(content, rule, upper).entries|
            && MaskRule(content, rule, upper).entries[i]
               == MaskEntry(if rule.name == [] then [114, 117, 108, 101] else rule.name, os[i],
                            Placeholder(Label(upper, rule.name), i + 1))
  {
    hide MaskMatches, Placeholder, Matches, Label, Originals;
    RuleEntries(content, Matches(content, rule), RuleName(rule.name), Label(upper, rule.name), i);
  }

  lemma TaggedApart(x: MaskEntry, tags: set<Bytes>, tag: Bytes, j: nat)
    requires Tagged(x, tags) && tag !in tags
    ensures x.masked != Placeholder(tag, j)
  {
    hide Placeholder;
    var t, i: nat :| t in tags && x.masked == Placeholder(t, i);
    if x.masked == Placeholder(tag, j) {
      PlaceholderInjective(t, i, tag, j);
    }
  }

  lemma AddTag(a: seq<MaskEntry>, tags: set<Bytes>, b: seq<MaskEntry>, tag: Bytes)
    requires AllTagged(a, tags) && NumberedFrom(b, tag) && tag !in tags
    ensures AllTagged(a + b, tags + {tag})
    ensures forall k, j :: 0 <= k < |a| && 0 <= j < |b| ==> a[k].masked != b[j].masked
  {
    hide Placeholder;
    forall k, j | 0 <= k < |a| && 0 <= j < |b| ensures a[k].masked != b[j].masked {
      TaggedApart(a[k], tags, tag, j + 1);
    }
    forall k | 0 <= k < |a + b| ensures Tagged((a + b)[k], tags + {tag}) {
      if k < |a| {
        var t, i: nat :| t in tags && a[k].masked == Placeholder(t, i);
        assert t in tags + {tag};
      } else {
        assert tag in tags + {tag} && (a + b)[k].masked == Placeholder(tag, (k - |a|) + 1);
      }
    }
  }

  lemma ConcatWellFormed(a: seq<MaskEntry>, b: seq<MaskEntry>)
    requires MasksBracketed(a) && MasksDistinct(a) && MasksBracketed(b) && MasksDistinct(b)
    requires forall k, j :: 0 <= k < |a| && 0 <= j < |b| ==> a[k].masked != b[j].masked
    ensures MasksBracketed(a + b) && MasksDistinct(a + b)
  {
  }

  /** Placeholders are bracketed, belong to their rule, and no two entries share one. */
  lemma {:induction false} EntriesWellFormed(content: Bytes, rules: seq<CompiledRule>, upper: Upper)
    requires LabelsOk(rules, upper)
    ensures var es := Masked(content, rules, upper).entries;
            MasksBracketed(es) && MasksDistinct(es) && AllTagged(es, Tags(rules, upper))
    decreases |rules|
  {
    hide MaskRule, Placeholder, Label, Bracketed;
    if rules == [] {
    } else {
      var n := |rules| - 1;
      EntriesWellFormed(content, rules[..n], upper);
      var before := Masked(content, rules[..n], upper);
      var after := MaskRule(before.content, rules[n], upper).entries;
      EntriesOfRule(before.content, rules[n], upper);
      NumberedDistinct(after, Label(upper, rules[n].name));
      AddTag(before.entries, Tags(rules[..n], upper), after, Label(upper, rules[n].name));
      ConcatWellFormed(before.entries, after);
    }
  }

  /** A token's range is an occurrence of its placeholder. */
  lemma {:induction false} RangesOccur(ps: seq<Piece>, prefix: Bytes, r: Span)
    requires r in Ranges(ps, |prefix|)
    ensures exists p :: p in TokenSet(ps) && OccursAt(p.masked, prefix + Render(ps), r.lo) && r.hi == r.lo + |p.masked|
    decreases |ps|
  {
    var p, rest := ps[0], ps[1..];
    var s := prefix + Render(ps);
    Assoc(prefix, Shown(p), Render(rest));
    if r in Ranges(rest, |prefix + Shown(p)|) {
      RangesOccur(rest, prefix + Shown(p), r);
      var t :| t in TokenSet(rest) && OccursAt(t.masked, s, r.lo) && r.hi == r.lo + |t.masked|;
      assert t in TokenSet(ps);
    } else {
      assert p.Token? && r.lo == |prefix|;
      assert s[r.lo..r.lo + |p.masked|] == p.masked;
      assert p in TokenSet(ps);
    }
  }

  lemma ClearOfRanges(ps: seq<Piece>, before: MaskResult, spans: seq<Span>, k: int)
    requires Render(ps) == before.content && TokensFrom(ps, before.entries) && NoMatchTouches(before, spans)
    requires 0 <= k < |spans|
    ensures Clear(spans[k].lo, spans[k].hi, Ranges(ps, 0))
  {
    hide Render, TokenSet, Ranges;
    forall r | r in Ranges(ps, 0) ensures spans[k].hi <= r.lo || r.hi <= spans[k].lo {
      RangesOccur(ps, [], r);
      assert [] + Render(ps) == Render(ps);
      var p :| p in TokenSet(ps) && OccursAt(p.masked, Render(ps), r.lo) && r.hi == r.lo + |p.masked|;
      assert IsEntry(p, before.entries);
      var j :| 0 <= j < |before.entries| && before.entries[j].masked == p.masked
          && before.entries[j].original == p.original;
      assert OccursAt(before.entries[j].masked, before.content, r.lo);
    }
  }

  /** One rule: the pieces of its output. */
  lemma {:induction false} RulePieces(ps: seq<Piece>, before: MaskResult, spans: seq<Span>, maskType: Bytes, tag: Bytes)
    returns (ps': seq<Piece>)
    requires SpansOk(spans, |before.content|) && NoMatchTouches(before, spans)
    requires Render(ps) == before.content && TokensFrom(ps, before.entries) && MasksBracketed(before.entries)
    ensures var after := MaskMatches(before.content, spans, maskType, tag);
            && Render(ps') == after.content && Restore(ps') == Restore(ps)
            && TokensFrom(ps', before.entries + after.entries)
  {
    hide Render, Restore, TokenSet, Ranges, Placeholder, Rewritten, Originals, IndexIn;
    var os := Originals(before.content, spans, |spans|);
    OriginalsCover(before.content, spans, |spans|);
    var labels := Labels(tag, os);
    var news := set o | o in os :: TokenFor(o, labels);
    forall p | p in TokenSet(ps) ensures Bracketed(p.masked) {
      assert IsEntry(p, before.entries);
    }
    forall k | 0 <= k < |spans| ensures Clear(spans[k].lo, spans[k].hi, Ranges(ps, 0)) {
      ClearOfRanges(ps, before, spans, k);
    }
    var front, back := RewriteUpTo(ps, before.content, spans, labels, news, |spans|);
    RenderConcat(front, back);
    ps' := front + back;
    var after := EntriesFor(maskType, os, labels);
    forall p | p in TokenSet(ps') ensures IsEntry(p, before.entries + after) {
      if p in TokenSet(ps) {
        assert IsEntry(p, before.entries);
        var j :| 0 <= j < |before.entries| && before.entries[j].masked == p.masked
            && before.entries[j].original == p.original;
        assert (before.entries + after)[j] == before.entries[j];
      } else {
        assert p in news;
        var o :| o in os && p == TokenFor(o, labels);
        var i :| 0 <= i < |os| && os[i] == o;
        assert (before.entries + after)[|before.entries| + i] == after[i];
      }
    }
  }

  /** Every masked text is a rendering of pieces whose original is the request. */
  lemma {:induction false} MaskedPieces(content: Bytes, rules: seq<CompiledRule>, upper: Upper) returns (ps: seq<Piece>)
    requires LabelsOk(rules, upper) && MatchesClear(content, rules, upper)
    ensures Render(ps) == Masked(content, rules, upper).content && Restore(ps) == content
    ensures TokensFrom(ps, Masked(content, rules, upper).entries)
    decreases |rules|
  {
    if rules == [] {
      ps := [Plain(content)];
      RenderCons(Plain(content), []);
      assert [Plain(content)] + [] == ps;
    } else {
      hide Render, Restore, TokenSet, MaskMatches;
      var n := |rules| - 1;
      EntriesWellFormed(content, rules[..n], upper);
      var before := Masked(content, rules[..n], upper);
      var qs := MaskedPieces(content, rules[..n], upper);
      ps := RulePieces(qs, before, Matches(before.content, rules[n]), RuleName(rules[n].name),
          Label(upper, rules[n].name));
    }
  }

  /** Unmasking undoes masking, for any number of rules, when no generated placeholder
      was part of the request and no rule matched into an earlier placeholder. */
  lemma {:induction false} UnmaskUndoesMask(content: Bytes, rules: seq<CompiledRule>, upper: Upper)
    requires LabelsOk(rules, upper) && MatchesClear(content, rules, upper)
    requires MasksAbsent(Masked(content, rules, upper).entries, content)
    ensures Unmasked(Masked(content, rules, upper).content, Masked(content, rules, upper).entries) == content
  {
    hide Masked, MatchesClear, Unmasked, Render, Restore, TokenSet;
    EntriesWellFormed(content, rules, upper);
    var ps := MaskedPieces(content, rules, upper);
    UnmaskRestores(ps, Masked(content, rules, upper).entries);
  }

  // ---------------------------------------------------------------------
  // Chains of replacements that leave nothing behind
  // ---------------------------------------------------------------------

  /** No replacement brings an earlier pattern back. */
  ghost predicate NothingBroughtBack(entries: seq<MaskEntry>) {
    forall i, j :: 0 <= i <= j < |entries| ==> !Clashes(entries[j].original, entries[i].masked)
  }

  lemma {:induction false} AbsentKept(t: Bytes, x: Bytes, entries: seq<MaskEntry>)
    requires t != [] && !Infix(t, x) && MasksNonempty(entries)
    requires forall j :: 0 <= j < |entries| ==> !Clashes(entries[j].original, t)
    ensures !Infix(t, Unmasked(x, entries))
    decreases |entries|
  {
    if entries == [] {
    } else {
      var y := ReplaceAll(x, entries[0].masked, entries[0].original);
      if q :| OccursAt(t, y, q) {
        ReplaceCreatesNothing(x, entries[0].masked, entries[0].original, t, q);
      }
      AbsentKept(t, y, entries[1..]);
    }
  }

  /** After the whole chain no pattern of the chain is left anywhere in the text. */
  lemma {:induction false} ChainRemovesAll(x: Bytes, entries: seq<MaskEntry>)
    requires MasksNonempty(entries) && NothingBroughtBack(entries)
    ensures MasksAbsent(entries, Unmasked(x, entries))
    decreases |entries|
  {
    if entries == [] {
    } else {
      var e, rest := entries[0], entries[1..];
      var y := ReplaceAll(x, e.masked, e.original);
      if q :| OccursAt(e.masked, y, q) {
        ReplaceCreatesNothing(x, e.masked, e.original, e.masked, q);
      }
      forall i, j | 0 <= i <= j < |rest| ensures !Clashes(rest[j].original, rest[i].masked) {
        assert rest[j] == entries[j + 1] && rest[i] == entries[i + 1];
      }
      forall j | 0 <= j < |rest| ensures !Clashes(rest[j].original, e.masked) {
        assert rest[j] == entries[j + 1];
      }
      AbsentKept(e.masked, y, rest);
      ChainRemovesAll(y, rest);
      assert Unmasked(x, entries) == Unmasked(y, rest);
      forall i | 0 <= i < |entries| ensures !Infix(entries[i].masked, Unmasked(x, entries)) {
        if i > 0 { assert rest[i - 1] == entries[i]; }
      }
    }
  }

  /** Originals are nonempty and bracket-free. */
  ghost predicate OriginalsPlain(entries: seq<MaskEntry>) {
    forall i :: 0 <= i < |entries| ==> entries[i].original != [] && BracketFree(entries[i].original)
  }

  /** No original is part of the placeholder of the same or an earlier entry. */
  ghost predicate NotInEarlierMasks(entries: seq<MaskEntry>) {
    forall i, j :: 0 <= i <= j < |entries| ==> !Infix(entries[j].original, entries[i].masked)
  }

  /** No original is part of the placeholder of the same or a later entry. */
  ghost predicate NotInLaterMasks(entries: seq<MaskEntry>) {
    forall i, j :: 0 <= i <= j < |entries| ==> !Infix(entries[i].original, entries[j].masked)
  }

  /** Unmasking leaves no placeholder of the request in the text, whatever the text. */
  lemma NoPlaceholderRemains(x: Bytes, entries: seq<MaskEntry>)
    requires MasksBracketed(entries) && OriginalsPlain(entries) && NotInEarlierMasks(entries)
    ensures MasksAbsent(entries, Unmasked(x, entries))
  {
    hide Unmasked;
    forall i, j | 0 <= i <= j < |entries| ensures !Clashes(entries[j].original, entries[i].masked) {
      BracketFreeNoClash(entries[j].original, entries[i].masked);
    }
    ChainRemovesAll(x, entries);
  }

  /** Every match is nonempty and carries no bracket. */
  ghost predicate PlainMatches(x: Bytes, spans: seq<Span>)
    requires SpansOk(spans, |x|)
  {
    forall i :: 0 <= i < |spans| ==> spans[i].lo < spans[i].hi && BracketFree(Slice(x, spans[i]))
  }

  lemma BracketInSlice(x: Bytes, s: Span, p: nat)
    requires s.lo <= p < s.hi <= |x| && (x[p] == OPEN || x[p] == CLOSE)
    ensures !BracketFree(Slice(x, s))
  {
    assert Slice(x, s)[p - s.lo] == x[p];
  }

  /** A plain match lies on one side of a bracket. */
  lemma PlainAvoidsBracket(x: Bytes, spans: seq<Span>, p: nat)
    requires SpansOk(spans, |x|) && PlainMatches(x, spans) && p < |x| && (x[p] == OPEN || x[p] == CLOSE)
    ensures forall i :: 0 <= i < |spans| ==> spans[i].hi <= p || p + 1 <= spans[i].lo
  {
    forall i | 0 <= i < |spans| ensures spans[i].hi <= p || p + 1 <= spans[i].lo {
      if spans[i].lo <= p < spans[i].hi { BracketInSlice(x, spans[i], p); }
    }
  }

  /** The matches of the last rule are plain when its originals are. */
  lemma {:induction false} MatchesPlain(x: Bytes, spans: seq<Span>, maskType: Bytes, tag: Bytes)
    requires SpansOk(spans, |x|) && OriginalsPlain(MaskMatches(x, spans, maskType, tag).entries)
    ensures PlainMatches(x, spans)
  {
    hide MaskMatches, BracketFree, Originals, Placeholder;
    OriginalsCover(x, spans, |spans|);
    var os := Originals(x, spans, |spans|);
    forall i | 0 <= i < |spans| ensures spans[i].lo < spans[i].hi && BracketFree(Slice(x, spans[i])) {
      assert Slice(x, spans[i]) in os;
      var j :| 0 <= j < |os| && os[j] == Slice(x, spans[i]);
      EntryCount(x, spans, maskType, tag);
      RuleEntries(x, spans, maskType, tag, j);
    }
  }

  lemma {:induction false} EntryCount(x: Bytes, spans: seq<Span>, maskType: Bytes, tag: Bytes)
    requires SpansOk(spans, |x|)
    ensures |MaskMatches(x, spans, maskType, tag).entries| == |Originals(x, spans, |spans|)|
  {
  }

  /** A match that is not clear of a placeholder lies between its brackets. */
  lemma TouchesInside(before: MaskResult, spans: seq<Span>) returns (k: nat, i: nat, q: nat)
    requires SpansOk(spans, |before.content|) && PlainMatches(before.content, spans) && MasksBracketed(before.entries)
    requires !NoMatchTouches(before, spans)
    ensures k < |spans| && i < |before.entries| && OccursAt(before.entries[i].masked, before.content, q)
    ensures q < spans[k].lo && spans[k].hi < q + |before.entries[i].masked|
  {
    hide BracketFree, Bracketed;
    var k0, i0, q0 :| 0 <= k0 < |spans| && 0 <= i0 < |before.entries|
                      && OccursAt(before.entries[i0].masked, before.content, q0)
                      && !(spans[k0].hi <= q0 || q0 + |before.entries[i0].masked| <= spans[k0].lo);
    k, i, q := k0, i0, q0;
    var m := before.entries[i].masked;
    OccurrenceBytes(m, before.content, q);
    BracketedEnds(m);
    MaskSize(m);
    assert before.content[q] == OPEN && before.content[q + |m| - 1] == CLOSE;
    PlainAvoidsBracket(before.content, spans, q);
    PlainAvoidsBracket(before.content, spans, q + |m| - 1);
    assert spans[k].lo < spans[k].hi;
  }

  lemma MaskSize(m: Bytes)
    requires Bracketed(m)
    ensures |m| >= 2
  {
  }

  lemma PlainParts(a: seq<MaskEntry>, b: seq<MaskEntry>)
    requires OriginalsPlain(a + b)
    ensures OriginalsPlain(a) && OriginalsPlain(b)
  {
    assert forall i :: 0 <= i < |a| ==> a[i] == (a + b)[i];
    assert forall i :: 0 <= i < |b| ==> b[i] == (a + b)[|a| + i];
  }

  /** A rule whose originals are plain and no part of an earlier placeholder matches into none. */
  lemma {:induction false} PlainMatchesClear(content: Bytes, rules: seq<CompiledRule>, upper: Upper)
    requires LabelsOk(rules, upper)
    requires var es := Masked(content, rules, upper).entries; OriginalsPlain(es) && NotInEarlierMasks(es)
    ensures MatchesClear(content, rules, upper)
    decreases |rules|
  {
    hide MaskMatches, NoMatchTouches, Label, BracketFree, Matches, Infix;
    if rules == [] {
    } else {
      var n := |rules| - 1;
      var before := Masked(content, rules[..n], upper);
      var spans := Matches(before.content, rules[n]);
      var maskType, tag := RuleName(rules[n].name), Label(upper, rules[n].name);
      var after := MaskMatches(before.content, spans, maskType, tag);
      EntriesWellFormed(content, rules[..n], upper);
      PlainParts(before.entries, after.entries);
      NotInEarlierPrefix(before.entries, after.entries);
      PlainMatchesClear(content, rules[..n], upper);
      MatchesPlain(before.content, spans, maskType, tag);
      if !NoMatchTouches(before, spans) {
        OutsideIsClear(before, spans, maskType, tag);
      }
    }
  }

  lemma NotInEarlierPrefix(a: seq<MaskEntry>, b: seq<MaskEntry>)
    requires NotInEarlierMasks(a + b)
    ensures NotInEarlierMasks(a)
  {
    hide Infix;
    forall i, j | 0 <= i <= j < |a| ensures !Infix(a[j].original, a[i].masked) {
      assert a[j] == (a + b)[j] && a[i] == (a + b)[i];
    }
  }

  /** A match inside a placeholder makes its original a part of that placeholder. */
  lemma {:induction false} OutsideIsClear(before: MaskResult, spans: seq<Span>, maskType: Bytes, tag: Bytes)
    requires SpansOk(spans, |before.content|) && PlainMatches(before.content, spans) && MasksBracketed(before.entries)
    requires NotInEarlierMasks(before.entries + MaskMatches(before.content, spans, maskType, tag).entries)
    ensures NoMatchTouches(before, spans)
  {
    hide MaskMatches, Infix, Bracketed, PlainMatches;
    if !NoMatchTouches(before, spans) {
      var k, i, q := TouchesInside(before, spans);
      MatchIsOriginal(before, spans, maskType, tag, k, i, q);
    }
  }

  lemma {:induction false} MatchIsOriginal(before: MaskResult, spans: seq<Span>, maskType: Bytes, tag: Bytes, k: nat,
                                           i: nat, q: nat)
    requires SpansOk(spans, |before.content|) && k < |spans| && i < |before.entries|
    requires OccursAt(before.entries[i].masked, before.content, q)
    requires q < spans[k].lo && spans[k].hi < q + |before.entries[i].masked|
    ensures !NotInEarlierMasks(before.entries + MaskMatches(before.content, spans, maskType, tag).entries)
  {
    hide MaskMatches, Infix, Originals;
    var x, after := before.content, MaskMatches(before.content, spans, maskType, tag).entries;
    var os, o, m := Originals(x, spans, |spans|), Slice(x, spans[k]), before.entries[i].masked;
    OriginalsCover(x, spans, |spans|);
    var j :| 0 <= j < |os| && os[j] == o;
    EntryCount(x, spans, maskType, tag);
    RuleEntries(x, spans, maskType, tag, j);
    SliceInside(x, m, q, spans[k]);
    var all := before.entries + after;
    assert all[i] == before.entries[i] && all[|before.entries| + j] == after[j];
    assert Infix(all[|before.entries| + j].original, all[i].masked);
  }

  lemma SliceInside(x: Bytes, m: Bytes, q: nat, s: Span)
    requires OccursAt(m, x, q) && q <= s.lo <= s.hi <= q + |m|
    ensures Infix(Slice(x, s), m)
  {
    var d := s.lo - q;
    OccurrenceBytes(m, x, q);
    var part := m[d..d + (s.hi - s.lo)];
    forall i | 0 <= i < |part| ensures part[i] == Slice(x, s)[i] {
      assert x[s.lo + i] == m[s.lo + i - q];
    }
    assert part == Slice(x, s);
    assert OccursAt(Slice(x, s), m, d);
  }

  /** Exactly when the round trip works, for plain originals that are no part of an earlier
      placeholder: no generated placeholder occurs in the request. */
  lemma {:induction false} RoundTripExactly(content: Bytes, rules: seq<CompiledRule>, upper: Upper)
    requires LabelsOk(rules, upper)
    requires var es := Masked(content, rules, upper).entries; OriginalsPlain(es) && NotInEarlierMasks(es)
    ensures var r := Masked(content, rules, upper);
            Unmasked(r.content, r.entries) == content <==> MasksAbsent(r.entries, content)
  {
    hide Masked, MatchesClear, Unmasked, OriginalsPlain, NotInEarlierMasks, LabelsOk;
    var r := Masked(content, rules, upper);
    PlainMatchesClear(content, rules, upper);
    EntriesWellFormed(content, rules, upper);
    NoPlaceholderRemains(r.content, r.entries);
    if MasksAbsent(r.entries, content) {
      UnmaskUndoesMask(content, rules, upper);
    }
  }

  // ---------------------------------------------------------------------
  // Re-masking the output for storage
  // ---------------------------------------------------------------------

  /** One `ReplaceAll` per entry, original to placeholder, first entry first. */
  function Remasked(output: Bytes, entries: seq<MaskEntry>): Bytes
    decreases |entries|
  {
    if entries == [] then output
    else Remasked(ReplaceAll(output, entries[0].original, entries[0].masked), entries[1..])
  }

  /** The loop of the "LLM + Storage" mode. */
  method RemaskOutput(output: Bytes, entries: seq<MaskEntry>) returns (remasked: Bytes)
    ensures remasked == Remasked(output, entries)
  {
    remasked := output;
    for i := 0 to |entries|
      invariant Remasked(remasked, entries[i..]) == Remasked(output, entries)
    {
      remasked := ReplaceAll(remasked, entries[i].original, entries[i].masked);
      assert entries[i..][1..] == entries[i + 1..];
    }
  }

  function Swapped(entries: seq<MaskEntry>): (r: seq<MaskEntry>)
    ensures |r| == |entries|
    ensures forall i :: 0 <= i < |r| ==> r[i] == MaskEntry(entries[i].maskType, entries[i].masked, entries[i].original)
  {
    seq(|entries|, i requires 0 <= i < |entries| =>
      MaskEntry(entries[i].maskType, entries[i].masked, entries[i].original))
  }

  lemma {:induction false} RemaskedIsSwapped(output: Bytes, entries: seq<MaskEntry>)
    ensures Remasked(output, entries) == Unmasked(output, Swapped(entries))
    decreases |entries|
  {
    if entries == [] {
    } else {
      assert Swapped(entries)[1..] == Swapped(entries[1..]);
      RemaskedIsSwapped(ReplaceAll(output, entries[0].original, entries[0].masked), entries[1..]);
    }
  }

  ghost predicate OriginalsAbsent(entries: seq<MaskEntry>, s: Bytes) {
    forall i :: 0 <= i < |entries| ==> !Infix(entries[i].original, s)
  }

  /** The stored output holds no original, whatever the provider answered. */
  lemma NoOriginalStored(output: Bytes, entries: seq<MaskEntry>)
    requires MasksBracketed(entries) && OriginalsPlain(entries) && NotInLaterMasks(entries)
    ensures OriginalsAbsent(entries, Remasked(output, entries))
  {
    hide Unmasked, Remasked;
    var sw := Swapped(entries);
    forall i, j | 0 <= i <= j < |sw| ensures !Clashes(sw[j].original, sw[i].masked) {
      PlaceholderNoClash(entries[j].masked, entries[i].original);
    }
    ChainRemovesAll(output, sw);
    RemaskedIsSwapped(output, entries);
    forall i | 0 <= i < |entries| ensures !Infix(entries[i].original, Remasked(output, entries)) {
      assert sw[i].masked == entries[i].original;
    }
  }

  /** With one entry the condition is exact: if the original is part of its own placeholder,
      some output keeps it. */
  lemma NoOriginalStoredExactly(e: MaskEntry)
    requires Bracketed(e.masked) && e.original != [] && BracketFree(e.original)
    ensures !Infix(e.original, e.masked) ==> forall output :: !Infix(e.original, Remasked(output, [e]))
    ensures Infix(e.original, e.masked) ==> Infix(e.original, Remasked(e.original, [e]))
  {
    if !Infix(e.original, e.masked) {
      forall output ensures !Infix(e.original, Remasked(output, [e])) {
        NoOriginalStored(output, [e]);
        assert [e][0].original == e.original;
      }
    } else {
      var o := e.original;
      assert ReplaceAll(o, o, e.masked) == e.masked + ReplaceAll(o[|o|..], o, e.masked);
      assert ReplaceAll(o, o, e.masked) == e.masked;
      assert Remasked(o, [e]) == Remasked(e.masked, [e][1..]) == e.masked;
    }
  }
}
