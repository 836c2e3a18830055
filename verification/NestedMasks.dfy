/** Rules that match into the placeholders of earlier rules (`proxy/internal/masking/masker.go`).

    Such a match breaks a placeholder up. Unmasking looks for the broken placeholder before it
    restores what broke it, so the placeholder itself is left over: for plain originals and
    placeholders that were not in the request, the round trip works exactly when no rule matches
    into an earlier placeholder. */
module NestedMasks {
  import opened ByteStrings
  import opened Masking
  import opened RoundTrip

  // ---------------------------------------------------------------------
  // Replacing the matches of a text part by part
  // ---------------------------------------------------------------------

  /** The whole text with every span replaced by its label. */
  ghost function Full(x: Bytes, spans: seq<Span>, labels: map<Bytes, Bytes>): Bytes
    requires SpansOk(spans, |x|) && Labelled(x, spans, labels)
  {
    Rewritten(x, spans, labels, |spans|) + x[PrevEnd(spans, |spans|)..]
  }

  /** No span crosses position `p`; the first `j` lie before it. */
  predicate CutsAt(spans: seq<Span>, p: nat, j: nat) {
    j <= |spans| && (forall i :: 0 <= i < j ==> spans[i].hi <= p) && (forall i :: j <= i < |spans| ==> p <= spans[i].lo)
  }

  /** The spans as positions behind `p`. */
  function Shifted(spans: seq<Span>, p: nat): (r: seq<Span>)
    requires forall i :: 0 <= i < |spans| ==> p <= spans[i].lo <= spans[i].hi
    ensures |r| == |spans|
    ensures forall i :: 0 <= i < |r| ==> r[i].lo == spans[i].lo - p && r[i].hi == spans[i].hi - p
  {
    seq(|spans|, i requires 0 <= i < |spans| => Span(spans[i].lo - p, spans[i].hi - p))
  }

  lemma PartsOk(x: Bytes, spans: seq<Span>, labels: map<Bytes, Bytes>, p: nat, j: nat)
    requires SpansOk(spans, |x|) && Labelled(x, spans, labels) && p <= |x| && CutsAt(spans, p, j)
    ensures SpansOk(spans[..j], p) && Labelled(x[..p], spans[..j], labels)
    ensures SpansOk(Shifted(spans[j..], p), |x| - p) && Labelled(x[p..], Shifted(spans[j..], p), labels)
  {
    forall i | 0 <= i < j ensures Slice(x[..p], spans[..j][i]) in labels {
      assert Slice(x[..p], spans[i]) == Slice(x, spans[i]);
    }
    forall i | 0 <= i < |spans| - j ensures Slice(x[p..], Shifted(spans[j..], p)[i]) in labels {
      assert Slice(x[p..], Shifted(spans[j..], p)[i]) == Slice(x, spans[j + i]);
    }
  }

  lemma {:induction false} RewrittenBefore(x: Bytes, spans: seq<Span>, labels: map<Bytes, Bytes>, p: nat, j: nat,
                                           k: nat)
    requires SpansOk(spans, |x|) && Labelled(x, spans, labels) && p <= |x| && CutsAt(spans, p, j) && k <= j
    requires SpansOk(spans[..j], p) && Labelled(x[..p], spans[..j], labels)
    ensures Rewritten(x, spans, labels, k) == Rewritten(x[..p], spans[..j], labels, k)
    decreases k
  {
    if k == 0 {
    } else {
      RewrittenBefore(x, spans, labels, p, j, k - 1);
      var at, s := PrevEnd(spans, k - 1), spans[k - 1];
      assert x[..p][at..s.lo] == x[at..s.lo] && Slice(x[..p], s) == Slice(x, s);
    }
  }

  /** The parts of a text that is cut at `p`. */
  ghost predicate Parts(x: Bytes, spans: seq<Span>, labels: map<Bytes, Bytes>, p: nat, j: nat) {
    && SpansOk(spans, |x|) && Labelled(x, spans, labels) && p <= |x| && CutsAt(spans, p, j)
    && SpansOk(spans[..j], p) && Labelled(x[..p], spans[..j], labels)
    && SpansOk(Shifted(spans[j..], p), |x| - p) && Labelled(x[p..], Shifted(spans[j..], p), labels)
  }

  lemma {:induction false} RewrittenBehind(x: Bytes, spans: seq<Span>, labels: map<Bytes, Bytes>, p: nat, j: nat,
                                           k: nat)
    requires Parts(x, spans, labels, p, j) && j < k <= |spans|
    ensures Rewritten(x, spans, labels, k)
            == Full(x[..p], spans[..j], labels) + Rewritten(x[p..], Shifted(spans[j..], p), labels, k - j)
    decreases k
  {
    hide Rewritten, Full, Labelled, Slice, SpansOk;
    if k == j + 1 {
      FirstBehind(x, spans, labels, p, j);
    } else {
      RewrittenBehind(x, spans, labels, p, j, k - 1);
      NextBehind(x, spans, labels, p, j, k);
    }
  }

  lemma FirstBehind(x: Bytes, spans: seq<Span>, labels: map<Bytes, Bytes>, p: nat, j: nat)
    requires Parts(x, spans, labels, p, j) && j < |spans|
    ensures Rewritten(x, spans, labels, j + 1)
            == Full(x[..p], spans[..j], labels) + Rewritten(x[p..], Shifted(spans[j..], p), labels, 1)
  {
    var later, at, s := Shifted(spans[j..], p), PrevEnd(spans, j), spans[j];
    RewrittenBefore(x, spans, labels, p, j, j);
    assert Slice(x[p..], later[0]) == Slice(x, s);
    var tag := labels[Slice(x, s)];
    assert x[at..s.lo] == x[..p][at..] + x[p..][0..s.lo - p];
    assert Rewritten(x[p..], later, labels, 0) == [];
    assert Rewritten(x[p..], later, labels, 1) == [] + x[p..][0..s.lo - p] + tag;
    assert PrevEnd(spans[..j], j) == at;
    hide Rewritten, Labelled, Slice;
    Join4(Rewritten(x, spans, labels, j), x[..p][at..], x[p..][0..s.lo - p], tag);
  }

  lemma NextBehind(x: Bytes, spans: seq<Span>, labels: map<Bytes, Bytes>, p: nat, j: nat, k: nat)
    requires Parts(x, spans, labels, p, j) && j + 1 < k <= |spans|
    requires Rewritten(x, spans, labels, k - 1)
             == Full(x[..p], spans[..j], labels) + Rewritten(x[p..], Shifted(spans[j..], p), labels, k - 1 - j)
    ensures Rewritten(x, spans, labels, k)
            == Full(x[..p], spans[..j], labels) + Rewritten(x[p..], Shifted(spans[j..], p), labels, k - j)
  {
    hide Full;
    var later, at, s := Shifted(spans[j..], p), PrevEnd(spans, k - 1), spans[k - 1];
    assert Slice(x[p..], later[k - 1 - j]) == Slice(x, s);
    assert x[p..][at - p..s.lo - p] == x[at..s.lo];
    var before := Rewritten(x[p..], later, labels, k - 1 - j);
    assert Rewritten(x[p..], later, labels, k - j) == before + x[at..s.lo] + labels[Slice(x, s)];
    Join4(Full(x[..p], spans[..j], labels), before, x[at..s.lo], labels[Slice(x, s)]);
  }

  lemma Join4(a: Bytes, b: Bytes, c: Bytes, d: Bytes)
    ensures a + (b + c) + d == (a + b) + ([] + c + d)
    ensures (a + b) + c + d == a + (b + c + d)
  {
  }

  /** A text rewrites part by part. */
  lemma FullCut(x: Bytes, spans: seq<Span>, labels: map<Bytes, Bytes>, p: nat, j: nat)
    requires SpansOk(spans, |x|) && Labelled(x, spans, labels) && p <= |x| && CutsAt(spans, p, j)
    ensures SpansOk(spans[..j], |x[..p]|) && Labelled(x[..p], spans[..j], labels)
    ensures SpansOk(Shifted(spans[j..], p), |x[p..]|) && Labelled(x[p..], Shifted(spans[j..], p), labels)
    ensures Full(x, spans, labels) == Full(x[..p], spans[..j], labels) + Full(x[p..], Shifted(spans[j..], p), labels)
  {
    hide Rewritten;
    PartsOk(x, spans, labels, p, j);
    hide Labelled;
    var n, at := |spans|, PrevEnd(spans, |spans|);
    var later := Shifted(spans[j..], p);
    if n == j {
      RewrittenBefore(x, spans, labels, p, j, j);
      assert spans[..j] == spans;
      assert x[at..] == x[..p][at..] + x[p..];
      NoSpans(x[p..], later, labels);
      Assoc(Rewritten(x, spans, labels, n), x[..p][at..], x[p..]);
    } else {
      RewrittenBehind(x, spans, labels, p, j, n);
      LastBehind(x, spans, p, j);
      Assoc(Full(x[..p], spans[..j], labels), Rewritten(x[p..], later, labels, n - j), x[at..]);
    }
  }

  lemma LastBehind(x: Bytes, spans: seq<Span>, p: nat, j: nat)
    requires SpansOk(spans, |x|) && p <= |x| && CutsAt(spans, p, j) && j < |spans|
    ensures var later := Shifted(spans[j..], p);
            && PrevEnd(later, |later|) == PrevEnd(spans, |spans|) - p >= 0
            && x[p..][PrevEnd(later, |later|)..] == x[PrevEnd(spans, |spans|)..]
  {
  }

  lemma NoSpans(x: Bytes, spans: seq<Span>, labels: map<Bytes, Bytes>)
    requires SpansOk(spans, |x|) && Labelled(x, spans, labels) && spans == []
    ensures Full(x, spans, labels) == x
  {
  }

  /** A label is left in the text. */
  lemma FullHasLabel(x: Bytes, spans: seq<Span>, labels: map<Bytes, Bytes>)
    requires SpansOk(spans, |x|) && Labelled(x, spans, labels) && spans != []
    requires forall o :: o in labels ==> Bracketed(labels[o])
    ensures OPEN in Full(x, spans, labels)
  {
    var tag := labels[Slice(x, spans[|spans| - 1])];
    assert tag[0] == OPEN;
  }

  /** Behind a last byte that no span covers the text ends as it did. */
  lemma FullKeepsLast(x: Bytes, spans: seq<Span>, labels: map<Bytes, Bytes>)
    requires SpansOk(spans, |x|) && Labelled(x, spans, labels) && x != []
    requires forall i :: 0 <= i < |spans| ==> spans[i].hi < |x|
    ensures var t := Full(x, spans, labels); t != [] && t == t[..|t| - 1] + [x[|x| - 1]]
  {
  }

  /** And before a first byte that no span covers it starts as it did. */
  lemma FullKeepsFirst(x: Bytes, spans: seq<Span>, labels: map<Bytes, Bytes>)
    requires SpansOk(spans, |x|) && Labelled(x, spans, labels) && x != []
    requires forall i :: 0 <= i < |spans| ==> 1 <= spans[i].lo
    ensures var t := Full(x, spans, labels); t != [] && t == [x[0]] + t[1..]
  {
    hide Labelled, Rewritten;
    FullCut(x, spans, labels, 1, 0);
    assert spans[..0] == [];
    NoSpans(x[..1], spans[..0], labels);
    assert x[..1] == [x[0]];
  }

  // ---------------------------------------------------------------------
  // A broken placeholder
  // ---------------------------------------------------------------------

  /** A bracket, the pieces, a bracket: what was once the placeholder `Wrap(Restore(sub))`. */
  function Wrap(t: Bytes): Bytes {
    [OPEN] + t + [CLOSE]
  }

  function Around(p: Bytes, sub: seq<Piece>, q: Bytes): Bytes {
    p + Wrap(Render(sub)) + q
  }

  /** The placeholder of entry `i` stands in `x`, broken up by placeholders of later entries. */
  ghost predicate StuckAt(x: Bytes, entries: seq<MaskEntry>, i: nat, p: Bytes, sub: seq<Piece>, q: Bytes) {
    && i < |entries| && entries[i].masked == Wrap(Restore(sub))
    && x == Around(p, sub, q)
    && TokenSet(sub) != {} && TokensFrom(sub, entries[i + 1..])
  }

  lemma WrapInner(sub: seq<Piece>)
    requires Bracketed(Wrap(Restore(sub)))
    ensures BracketFree(Restore(sub))
  {
    assert Wrap(Restore(sub))[1..|Wrap(Restore(sub))| - 1] == Restore(sub);
  }

  // ---------------------------------------------------------------------
  // Unmasking does not mend it
  // ---------------------------------------------------------------------

  /** No occurrence of `m` lies across the end of `a`. */
  ghost predicate NoCrossing(a: Bytes, b: Bytes, m: Bytes) {
    forall k :: OccursAt(m, a + b, k) ==> !(k < |a| < k + |m|)
  }

  /** Replacement works part by part where no occurrence crosses. */
  lemma {:induction false} ReplaceParts(a: Bytes, b: Bytes, m: Bytes, o: Bytes)
    requires m != [] && NoCrossing(a, b, m)
    ensures ReplaceAll(a + b, m, o) == ReplaceAll(a, m, o) + ReplaceAll(b, m, o)
    decreases |a|
  {
    hide ReplaceAll;
    var s := a + b;
    if a == [] {
      assert s == b;
      ReplaceUnfold([], m, o);
    } else if m <= s {
      assert OccursAt(m, s, 0);
      assert |m| <= |a|;
      assert s[|m|..] == a[|m|..] + b && m <= a by { assert a[..|m|] == s[..|m|]; }
      CrossingsOfTail(a, b, m, |m|);
      ReplaceParts(a[|m|..], b, m, o);
      ReplaceUnfold(s, m, o);
      ReplaceUnfold(a, m, o);
      Assoc(o, ReplaceAll(a[|m|..], m, o), ReplaceAll(b, m, o));
    } else {
      PrefixOfPart(a, b, m);
      assert s[1..] == a[1..] + b && s[0] == a[0];
      CrossingsOfTail(a, b, m, 1);
      ReplaceParts(a[1..], b, m, o);
      ReplaceUnfold(s, m, o);
      ReplaceUnfold(a, m, o);
      Assoc([a[0]], ReplaceAll(a[1..], m, o), ReplaceAll(b, m, o));
    }
  }

  lemma ReplaceUnfold(s: Bytes, m: Bytes, o: Bytes)
    requires m != []
    ensures ReplaceAll(s, m, o) == if s == [] then [] else if m <= s then o + ReplaceAll(s[|m|..], m, o)
                                   else [s[0]] + ReplaceAll(s[1..], m, o)
  {
  }

  lemma PrefixOfPart(a: Bytes, b: Bytes, m: Bytes)
    ensures m <= a ==> m <= a + b
  {
  }

  lemma CrossingsOfTail(a: Bytes, b: Bytes, m: Bytes, n: nat)
    requires n <= |a| && NoCrossing(a, b, m)
    ensures NoCrossing(a[n..], b, m)
  {
    forall k | OccursAt(m, a[n..] + b, k) ensures !(k < |a[n..]| < k + |m|) {
      assert (a[n..] + b)[k..k + |m|] == (a + b)[n + k..n + k + |m|];
      assert OccursAt(m, a + b, n + k);
    }
  }

  /** A placeholder does not cross into a text that starts with its opening bracket, nor out of
      one that ends with the closing one. */
  lemma NoneCrosses(a: Bytes, b: Bytes, m: Bytes)
    requires Bracketed(m) && ((b != [] && b[0] == OPEN) || (a != [] && a[|a| - 1] == CLOSE))
    ensures NoCrossing(a, b, m)
  {
    BracketedEnds(m);
    assert b != [] ==> (a + b)[|a|] == b[0];
    assert a != [] ==> (a + b)[|a| - 1] == a[|a| - 1];
    forall k | OccursAt(m, a + b, k) ensures !(k < |a| < k + |m|) {
      OccurrenceBytes(m, a + b, k);
    }
  }

  /** `t` starts with `[` and comes to another `[` before a `]`. */
  predicate OpensTwice(t: Bytes) {
    t != [] && t[0] == OPEN && exists j :: 1 <= j < |t| && t[j] == OPEN && forall i :: 1 <= i < j ==> t[i] != CLOSE
  }

  /** `t` ends with `]` behind another `]` and no `[` in between. */
  predicate ClosesTwice(t: Bytes) {
    t != [] && t[|t| - 1] == CLOSE
    && exists j :: 0 <= j < |t| - 1 && t[j] == CLOSE && forall i :: j < i < |t| - 1 ==> t[i] != OPEN
  }

  lemma NoneAtDoubleOpen(t: Bytes, m: Bytes)
    requires Bracketed(m) && OpensTwice([OPEN] + t)
    ensures NoCrossing([OPEN], t, m)
  {
    var s := [OPEN] + t;
    var j :| 1 <= j < |s| && s[j] == OPEN && forall i :: 1 <= i < j ==> s[i] != CLOSE;
    forall k | OccursAt(m, s, k) ensures !(k < 1 < k + |m|) {
      OccurrenceBytes(m, s, k);
      BracketedEnds(m);
      assert s[k + |m| - 1] == CLOSE;
    }
  }

  lemma NoneAtDoubleClose(t: Bytes, m: Bytes)
    requires Bracketed(m) && ClosesTwice(t + [CLOSE])
    ensures NoCrossing(t, [CLOSE], m)
  {
    var s := t + [CLOSE];
    var j :| 0 <= j < |s| - 1 && s[j] == CLOSE && forall i :: j < i < |s| - 1 ==> s[i] != OPEN;
    forall k | OccursAt(m, s, k) ensures !(k < |t| < k + |m|) {
      OccurrenceBytes(m, s, k);
      BracketedEnds(m);
      assert s[k] == m[0] == OPEN;
    }
  }

  /** The first bracket is an opening one. */
  ghost predicate OpensFirst(r: Bytes) {
    exists j :: 0 <= j < |r| && r[j] == OPEN && forall i :: 0 <= i < j ==> r[i] != CLOSE
  }

  /** The last bracket is a closing one. */
  ghost predicate ClosesLast(r: Bytes) {
    exists j :: 0 <= j < |r| && r[j] == CLOSE && forall i :: j < i < |r| ==> r[i] != OPEN
  }

  lemma OpensFirstCons(a: Bytes, r: Bytes)
    ensures BracketFree(a) && OpensFirst(r) ==> OpensFirst(a + r)
    ensures Bracketed(a) ==> OpensFirst(a + r)
  {
    if BracketFree(a) && OpensFirst(r) {
      var j :| 0 <= j < |r| && r[j] == OPEN && forall i :: 0 <= i < j ==> r[i] != CLOSE;
      assert (a + r)[|a| + j] == OPEN && forall i :: |a| <= i < |a| + j ==> (a + r)[i] == r[i - |a|];
    }
    if Bracketed(a) { assert (a + r)[0] == OPEN; }
  }

  lemma ClosesLastCons(a: Bytes, r: Bytes)
    ensures ClosesLast(r) ==> ClosesLast(a + r)
    ensures Bracketed(a) && BracketFree(r) ==> ClosesLast(a + r)
  {
    if ClosesLast(r) {
      var j :| 0 <= j < |r| && r[j] == CLOSE && forall i :: j < i < |r| ==> r[i] != OPEN;
      assert (a + r)[|a| + j] == CLOSE && forall i :: |a| + j < i < |a + r| ==> (a + r)[i] == r[i - |a|];
    }
    if Bracketed(a) && BracketFree(r) {
      assert (a + r)[|a| - 1] == CLOSE && forall i :: |a| <= i < |a + r| ==> (a + r)[i] == r[i - |a|];
    }
  }

  /** Pieces with a token open before they close, and close after they open. */
  lemma {:induction false} TokensOpen(sub: seq<Piece>)
    requires BracketFree(Restore(sub)) && TokensBracketed(sub) && TokenSet(sub) != {}
    ensures OpensFirst(Render(sub)) && ClosesLast(Render(sub))
    decreases |sub|
  {
    var p, rest := sub[0], sub[1..];
    FreeParts(Kept(p), Restore(rest));
    assert p.Token? ==> p in TokenSet(sub);
    assert TokensBracketed(rest);
    hide OpensFirst, ClosesLast, BracketFree, Bracketed;
    OpensFirstCons(Shown(p), Render(rest));
    ClosesLastCons(Shown(p), Render(rest));
    if TokenSet(rest) == {} {
      AllPlain(rest);
    } else {
      TokensOpen(rest);
    }
  }

  lemma FreeParts(a: Bytes, b: Bytes)
    requires BracketFree(a + b)
    ensures BracketFree(a) && BracketFree(b)
  {
    assert forall i :: 0 <= i < |a| ==> a[i] == (a + b)[i];
    assert forall i :: 0 <= i < |b| ==> b[i] == (a + b)[|a| + i];
  }

  lemma WrapOpensTwice(r: Bytes)
    requires OpensFirst(r) && ClosesLast(r)
    ensures OpensTwice([OPEN] + r) && ClosesTwice([OPEN] + r + [CLOSE])
  {
    var t := [OPEN] + r + [CLOSE];
    var j :| 0 <= j < |r| && r[j] == OPEN && forall i :: 0 <= i < j ==> r[i] != CLOSE;
    assert ([OPEN] + r)[j + 1] == OPEN && forall i :: 1 <= i < j + 1 ==> ([OPEN] + r)[i] == r[i - 1];
    var k :| 0 <= k < |r| && r[k] == CLOSE && forall i :: k < i < |r| ==> r[i] != OPEN;
    assert t[k + 1] == CLOSE && forall i :: k + 1 < i < |t| - 1 ==> t[i] == r[i - 1];
  }

  /** A broken placeholder keeps its brackets whatever is replaced. */
  lemma BrokenReplace(sub: seq<Piece>, m: Bytes, o: Bytes)
    requires Bracketed(m) && BracketFree(Restore(sub)) && TokensBracketed(sub) && TokenSet(sub) != {}
    requires forall p :: p in TokenSet(sub) && p.masked == m ==> p.original == o
    ensures ReplaceAll(Wrap(Render(sub)), m, o) == Wrap(Render(Reveal(sub, m)))
    ensures Restore(Reveal(sub, m)) == Restore(sub)
  {
    hide ReplaceAll, Render, Restore, TokenSet;
    var r := Render(sub);
    var inner := [OPEN] + r;
    TokensOpen(sub);
    WrapOpensTwice(r);
    NoneAtDoubleClose(inner, m);
    ReplaceParts(inner, [CLOSE], m, o);
    NoneAtDoubleOpen(r, m);
    ReplaceParts([OPEN], r, m, o);
    SingleReplace(OPEN, m, o);
    SingleReplace(CLOSE, m, o);
    if Infix(m, Restore(sub)) { PlaceholderNotInFree(m, Restore(sub)); }
    ReplaceReveals(sub, m, o);
  }

  lemma PlaceholderNotInFree(m: Bytes, s: Bytes)
    requires Bracketed(m) && BracketFree(s)
    ensures !Infix(m, s)
  {
    if Infix(m, s) { FirstByteOfInfix(m, s); }
  }

  lemma SingleReplace(b: byte, m: Bytes, o: Bytes)
    requires Bracketed(m)
    ensures ReplaceAll([b], m, o) == [b]
  {
    assert ReplaceAll([b], m, o) == [b] + ReplaceAll([b][1..], m, o);
  }

  /** One replacement, seen around the broken placeholder. */
  lemma AroundReplace(p: Bytes, sub: seq<Piece>, q: Bytes, m: Bytes, o: Bytes) returns (p': Bytes, q': Bytes)
    requires Bracketed(m) && BracketFree(Restore(sub)) && TokensBracketed(sub)
    requires TokenSet(sub) != {} || m != Wrap(Restore(sub))
    requires forall x :: x in TokenSet(sub) && x.masked == m ==> x.original == o
    ensures ReplaceAll(Around(p, sub, q), m, o) == Around(p', Reveal(sub, m), q')
    ensures Restore(Reveal(sub, m)) == Restore(sub)
  {
    hide ReplaceAll, Render, Restore, TokenSet, Reveal;
    var w := Wrap(Render(sub));
    NoneCrosses(p + w, q, m);
    ReplaceParts(p + w, q, m, o);
    NoneCrosses(p, w, m);
    ReplaceParts(p, w, m, o);
    p', q' := ReplaceAll(p, m, o), ReplaceAll(q, m, o);
    if TokenSet(sub) != {} {
      BrokenReplace(sub, m, o);
    } else {
      MendedReplace(sub, m, o);
    }
  }

  /** Without a token the placeholder stands as it was, and no other is replaced in it. */
  lemma MendedReplace(sub: seq<Piece>, m: Bytes, o: Bytes)
    requires Bracketed(m) && BracketFree(Restore(sub)) && TokenSet(sub) == {} && m != Wrap(Restore(sub))
    ensures ReplaceAll(Wrap(Render(sub)), m, o) == Wrap(Render(Reveal(sub, m)))
    ensures Restore(Reveal(sub, m)) == Restore(sub)
  {
    hide ReplaceAll;
    AllPlain(sub);
    RevealNone(sub, m);
    var w := Wrap(Restore(sub));
    assert w[1..|w| - 1] == Restore(sub);
    if Infix(m, w) { PlaceholdersAreNotNested(w, m); }
    ReplaceAbsent(w, m, o);
  }

  lemma {:induction false} RevealNone(sub: seq<Piece>, m: Bytes)
    requires forall p :: p in TokenSet(sub) ==> p.masked != m
    ensures Reveal(sub, m) == sub
    decreases |sub|
  {
    if sub == [] {
    } else {
      assert sub[0].Token? ==> sub[0] in TokenSet(sub);
      assert TokenSet(sub[1..]) <= TokenSet(sub);
      RevealNone(sub[1..], m);
    }
  }

  lemma AroundHasMask(p: Bytes, sub: seq<Piece>, q: Bytes)
    requires TokenSet(sub) == {}
    ensures Infix(Wrap(Restore(sub)), Around(p, sub, q))
  {
    AllPlain(sub);
    var w := Wrap(Restore(sub));
    assert (p + w + q)[|p|..|p| + |w|] == w;
    assert OccursAt(w, Around(p, sub, q), |p|);
  }

  /** Once the turn of the placeholder has passed, the entries that broke it bring it back. */
  lemma {:induction false} StuckLater(p: Bytes, sub: seq<Piece>, q: Bytes, entries: seq<MaskEntry>)
    requires MasksBracketed(entries) && MasksDistinct(entries) && TokensFrom(sub, entries)
    requires BracketFree(Restore(sub)) && forall i :: 0 <= i < |entries| ==> entries[i].masked != Wrap(Restore(sub))
    ensures Infix(Wrap(Restore(sub)), Unmasked(Around(p, sub, q), entries))
    decreases |entries|
  {
    hide Render, Restore, TokenSet, Reveal, ReplaceAll, Around;
    if entries == [] {
      assert TokenSet(sub) == {} by { NoTokens(sub); }
      AroundHasMask(p, sub, q);
    } else {
      var e := entries[0];
      TokensOfEntry(sub, entries);
      var p', q' := AroundReplace(p, sub, q, e.masked, e.original);
      RevealTokens(sub, e.masked);
      StuckLater(p', Reveal(sub, e.masked), q', entries[1..]);
    }
  }

  lemma NoTokens(sub: seq<Piece>)
    requires TokensFrom(sub, [])
    ensures TokenSet(sub) == {}
  {
  }

  /** Which tokens belong to the first entry, and which to the others. */
  lemma TokensOfEntry(sub: seq<Piece>, entries: seq<MaskEntry>)
    requires entries != [] && MasksBracketed(entries) && MasksDistinct(entries) && TokensFrom(sub, entries)
    ensures TokensBracketed(sub)
    ensures forall x :: x in TokenSet(sub) && x.masked == entries[0].masked ==> x.original == entries[0].original
    ensures TokensFrom(Reveal(sub, entries[0].masked), entries[1..])
  {
    hide TokenSet, Reveal;
    RevealTokens(sub, entries[0].masked);
    forall x | x in TokenSet(sub)
      ensures Bracketed(x.masked) && (x.masked == entries[0].masked ==> x.original == entries[0].original)
      ensures x.masked != entries[0].masked ==> IsEntry(x, entries[1..])
    {
      assert IsEntry(x, entries);
      var j :| 0 <= j < |entries| && entries[j].masked == x.masked && entries[j].original == x.original;
      if j > 0 { assert entries[1..][j - 1] == entries[j]; }
    }
  }

  /** Before its turn, and at it, nothing happens to a broken placeholder. */
  lemma {:induction false} StuckFirst(p: Bytes, sub: seq<Piece>, q: Bytes, entries: seq<MaskEntry>, i: nat)
    requires MasksBracketed(entries) && MasksDistinct(entries) && i < |entries|
    requires TokensFrom(sub, entries[i + 1..]) && TokenSet(sub) != {}
    requires entries[i].masked == Wrap(Restore(sub))
    ensures Infix(entries[i].masked, Unmasked(Around(p, sub, q), entries))
    decreases |entries|
  {
    hide Render, Restore, TokenSet, Reveal, ReplaceAll, Around, Bracketed;
    WrapInner(sub);
    var e, rest := entries[0], entries[1..];
    TokensLater(sub, entries, i);
    var p', q' := AroundReplace(p, sub, q, e.masked, e.original);
    RevealNone(sub, e.masked);
    if i == 0 {
      assert entries[0 + 1..] == rest;
      forall j | 0 <= j < |rest| ensures rest[j].masked != Wrap(Restore(sub)) {
        assert rest[j] == entries[j + 1];
      }
      StuckLater(p', sub, q', rest);
    } else {
      assert rest[i - 1 + 1..] == entries[i + 1..] && rest[i - 1] == entries[i];
      StuckFirst(p', sub, q', rest, i - 1);
    }
  }

  lemma TokensLater(sub: seq<Piece>, entries: seq<MaskEntry>, i: nat)
    requires MasksBracketed(entries) && MasksDistinct(entries) && i < |entries| && TokensFrom(sub, entries[i + 1..])
    ensures TokensBracketed(sub) && forall x :: x in TokenSet(sub) ==> x.masked != entries[0].masked
  {
    hide TokenSet, Bracketed;
    forall x | x in TokenSet(sub) ensures Bracketed(x.masked) && x.masked != entries[0].masked {
      assert IsEntry(x, entries[i + 1..]);
      var j :| 0 <= j < |entries[i + 1..]| && entries[i + 1..][j].masked == x.masked
          && entries[i + 1..][j].original == x.original;
      assert entries[i + 1..][j] == entries[i + 1 + j];
    }
  }

  // ---------------------------------------------------------------------
  // A rule breaks it, and later rules leave it broken
  // ---------------------------------------------------------------------

  lemma {:induction false} CutIndex(spans: seq<Span>, n: nat, p: nat, k: nat) returns (j: nat)
    requires SpansOk(spans, n) && k <= |spans|
    requires forall i :: 0 <= i < |spans| ==> (spans[i].hi <= p || p <= spans[i].lo) && spans[i].lo < spans[i].hi
    requires forall i :: k <= i < |spans| ==> p <= spans[i].lo
    ensures CutsAt(spans, p, j) && j <= k
    decreases k
  {
    if k == 0 || spans[k - 1].hi <= p {
      j := k;
    } else {
      j := CutIndex(spans, n, p, k - 1);
    }
  }

  /** The pieces of the middle part after the rule. */
  lemma MiddlePieces(sub: seq<Piece>, spans: seq<Span>, labels: map<Bytes, Bytes>, news: set<Piece>)
    returns (sub': seq<Piece>)
    requires SpansOk(spans, |Render(sub)|) && Labelled(Render(sub), spans, labels) && TokensBracketed(sub)
    requires HasTokens(news, labels) && forall o :: o in labels ==> Bracketed(labels[o])
    requires forall k :: 0 <= k < |spans| ==> Clear(spans[k].lo, spans[k].hi, Ranges(sub, 0))
    requires BracketFree(Restore(sub)) && (TokenSet(sub) != {} || spans != [])
    ensures Render(sub') == Full(Render(sub), spans, labels) && Restore(sub') == Restore(sub)
    ensures TokenSet(sub') <= TokenSet(sub) + news && TokenSet(sub') != {}
  {
    hide Render, Restore, TokenSet, Ranges, Rewritten, Labelled, Clear, BracketFree;
    var x := Render(sub);
    if spans == [] {
      sub' := sub;
      NoSpans(x, spans, labels);
    } else {
      var front, back := RewriteUpTo(sub, x, spans, labels, news, |spans|);
      RenderConcat(front, back);
      sub' := front + back;
      FullHasLabel(x, spans, labels);
      OpenMeansToken(sub');
    }
  }

  lemma OpenMeansToken(sub: seq<Piece>)
    requires OPEN in Render(sub) && BracketFree(Restore(sub))
    ensures TokenSet(sub) != {}
  {
    hide Render, Restore, TokenSet;
    if TokenSet(sub) == {} { AllPlain(sub); }
  }

  /** What a rule makes of a text around a placeholder, whole or broken. */
  lemma RuleAround(p: Bytes, sub: seq<Piece>, q: Bytes, spans: seq<Span>, labels: map<Bytes, Bytes>, news: set<Piece>)
    returns (p': Bytes, sub': seq<Piece>, q': Bytes)
    requires SpansOk(spans, |Around(p, sub, q)|) && Labelled(Around(p, sub, q), spans, labels)
    requires PlainMatches(Around(p, sub, q), spans)
    requires BracketFree(Restore(sub)) && TokensBracketed(sub)
    requires HasTokens(news, labels) && forall o :: o in labels ==> Bracketed(labels[o])
    requires forall k :: 0 <= k < |spans| ==> Clear(spans[k].lo, spans[k].hi, Ranges(sub, |p| + 1))
    requires || TokenSet(sub) != {}
             || exists k :: 0 <= k < |spans| && |p| < spans[k].lo && spans[k].hi <= |p| + 1 + |Render(sub)|
    ensures Full(Around(p, sub, q), spans, labels) == Around(p', sub', q')
    ensures Restore(sub') == Restore(sub) && TokenSet(sub') <= TokenSet(sub) + news && TokenSet(sub') != {}
  {
    hide Render, Restore, TokenSet, Ranges, Rewritten, BracketFree, Clear, Labelled, Full;
    var x, r := Around(p, sub, q), Render(sub);
    var front, end := |p| + 1, |p| + 1 + |r|;
    AroundBytes(p, r, q);
    PlainAvoidsBracket(x, spans, |p|);
    PlainAvoidsBracket(x, spans, end);
    var j := CutIndex(spans, |x|, front, |spans|);
    FullCut(x, spans, labels, front, j);
    FullKeepsLast(x[..front], spans[..j], labels);
    var left := Full(x[..front], spans[..j], labels);
    var y, later := x[front..], Shifted(spans[j..], front);
    var l := CutIndex(later, |y|, |r|, |later|);
    FullCut(y, later, labels, |r|, l);
    var mid, tail := later[..l], Shifted(later[l..], |r|);
    MiddleClear(sub, spans, front, j, mid);
    MiddleNonempty(spans, front, |r|, j, later, l);
    sub' := MiddlePieces(sub, mid, labels, news);
    FullKeepsFirst(y[|r|..], tail, labels);
    var right := Full(y[|r|..], tail, labels);
    p', q' := left[..|left| - 1], right[1..];
    Reassemble(p', Render(sub'), q');
  }

  lemma AroundBytes(p: Bytes, r: Bytes, q: Bytes)
    ensures var x, front := p + Wrap(r) + q, |p| + 1;
            && |x| == |p| + |r| + 2 + |q| && x[|p|] == OPEN && x[front + |r|] == CLOSE
            && x[..front] == p + [OPEN] && x[front..] == r + ([CLOSE] + q)
            && x[front..][..|r|] == r && x[front..][|r|..] == [CLOSE] + q
  {
  }

  lemma Reassemble(p: Bytes, r: Bytes, q: Bytes)
    ensures (p + [OPEN]) + (r + ([CLOSE] + q)) == p + Wrap(r) + q
  {
  }

  lemma MiddleClear(sub: seq<Piece>, spans: seq<Span>, front: nat, j: nat, mid: seq<Span>)
    requires CutsAt(spans, front, j) && (forall i :: 0 <= i < |spans| ==> spans[i].lo <= spans[i].hi)
    requires |mid| <= |spans| - j && mid == Shifted(spans[j..], front)[..|mid|]
    requires forall k :: 0 <= k < |spans| ==> Clear(spans[k].lo, spans[k].hi, Ranges(sub, front))
    ensures forall k :: 0 <= k < |mid| ==> Clear(mid[k].lo, mid[k].hi, Ranges(sub, 0))
  {
    hide Ranges;
    RangesShift(sub, 0, front);
    forall k | 0 <= k < |mid| ensures Clear(mid[k].lo, mid[k].hi, Ranges(sub, 0)) {
      assert Clear(spans[j + k].lo, spans[j + k].hi, Ranges(sub, front));
      forall r | r in Ranges(sub, 0) ensures mid[k].hi <= r.lo || r.hi <= mid[k].lo {
        assert Span(r.lo + front, r.hi + front) in Ranges(sub, front);
      }
    }
  }

  lemma {:induction false} RangesShift(ps: seq<Piece>, at: nat, d: nat)
    ensures forall r :: r in Ranges(ps, at) ==> Span(r.lo + d, r.hi + d) in Ranges(ps, at + d)
    decreases |ps|
  {
    if ps == [] {
    } else {
      RangesShift(ps[1..], at + |Shown(ps[0])|, d);
    }
  }

  lemma MiddleNonempty(spans: seq<Span>, front: nat, n: nat, j: nat, later: seq<Span>, l: nat)
    requires CutsAt(spans, front, j) && (forall i :: 0 <= i < |spans| ==> spans[i].lo < spans[i].hi)
    requires later == Shifted(spans[j..], front) && CutsAt(later, n, l)
    ensures (exists k :: 0 <= k < |spans| && front <= spans[k].lo && spans[k].hi <= front + n) ==> l > 0
  {
    if k :| 0 <= k < |spans| && front <= spans[k].lo && spans[k].hi <= front + n {
      assert later[k - j].lo == spans[k].lo - front;
    }
  }

  // ---------------------------------------------------------------------
  // Over all rules
  // ---------------------------------------------------------------------

  /** One rule on a text with a placeholder of entry `i`, which it breaks or which is broken. */
  lemma {:induction false} RuleSticks(before: MaskResult, spans: seq<Span>, maskType: Bytes, tag: Bytes,
                                      i: nat, p: Bytes, sub: seq<Piece>, q: Bytes)
    returns (p': Bytes, sub': seq<Piece>, q': Bytes)
    requires before.content == Around(p, sub, q) && i < |before.entries|
    requires before.entries[i].masked == Wrap(Restore(sub)) && TokensFrom(sub, before.entries[i + 1..])
    requires MasksBracketed(before.entries) && SpansOk(spans, |before.content|) && BracketFree(tag)
    requires PlainMatches(before.content, spans)
    requires forall k :: 0 <= k < |spans| ==> Clear(spans[k].lo, spans[k].hi, Ranges(sub, |p| + 1))
    requires || TokenSet(sub) != {}
             || exists k :: 0 <= k < |spans| && |p| < spans[k].lo && spans[k].hi <= |p| + 1 + |Render(sub)|
    ensures var after := MaskMatches(before.content, spans, maskType, tag);
            StuckAt(after.content, before.entries + after.entries, i, p', sub', q')
  {
    hide Render, Restore, TokenSet, Ranges, Placeholder, Rewritten, Originals, IndexIn, Clear, PlainMatches, Bracketed;
    var os := Originals(before.content, spans, |spans|);
    OriginalsCover(before.content, spans, |spans|);
    var labels := Labels(tag, os);
    var news := set o | o in os :: TokenFor(o, labels);
    WrapInner(sub);
    LabelsBracketed(tag, os);
    TokensLaterBracketed(sub, before.entries, i);
    p', sub', q' := RuleAround(p, sub, q, spans, labels, news);
    var after := EntriesFor(maskType, os, labels);
    TokensExtended(sub, sub', before.entries, after, i, os, labels, news);
  }

  lemma LabelsBracketed(tag: Bytes, os: seq<Bytes>)
    requires BracketFree(tag)
    ensures var labels := Labels(tag, os); forall o :: o in labels ==> Bracketed(labels[o])
  {
    hide Placeholder, Bracketed;
    var labels := Labels(tag, os);
    forall o | o in labels ensures Bracketed(labels[o]) {
      PlaceholderIsBracketed(tag, IndexIn(o, os) + 1);
    }
  }

  lemma TokensLaterBracketed(sub: seq<Piece>, entries: seq<MaskEntry>, i: nat)
    requires MasksBracketed(entries) && i < |entries| && TokensFrom(sub, entries[i + 1..])
    ensures TokensBracketed(sub)
  {
    hide TokenSet, Bracketed;
    forall x | x in TokenSet(sub) ensures Bracketed(x.masked) {
      assert IsEntry(x, entries[i + 1..]);
    }
  }

  lemma TokensExtended(sub: seq<Piece>, sub': seq<Piece>, entries: seq<MaskEntry>, after: seq<MaskEntry>, i: nat,
                       os: seq<Bytes>, labels: map<Bytes, Bytes>, news: set<Piece>)
    requires i < |entries| && TokensFrom(sub, entries[i + 1..]) && TokenSet(sub') <= TokenSet(sub) + news
    requires (forall o :: o in os ==> o in labels) && news == (set o | o in os :: TokenFor(o, labels))
    requires |after| == |os|
    requires forall k :: 0 <= k < |os| ==> after[k].masked == labels[os[k]] && after[k].original == os[k]
    ensures TokensFrom(sub', (entries + after)[i + 1..])
  {
    hide TokenSet;
    var all, earlier := (entries + after)[i + 1..], entries[i + 1..];
    assert all == earlier + after;
    forall x | x in TokenSet(sub') ensures IsEntry(x, all) {
      if x in TokenSet(sub) {
        assert IsEntry(x, earlier);
        var j :| 0 <= j < |earlier| && earlier[j].masked == x.masked && earlier[j].original == x.original;
        assert all[j] == earlier[j];
      } else {
        var o :| o in os && x == TokenFor(o, labels);
        var k :| 0 <= k < |os| && os[k] == o;
        assert all[|earlier| + k] == after[k];
      }
    }
  }

  /** A rule that is not clear breaks a placeholder. */
  lemma {:induction false} RuleBreaks(before: MaskResult, spans: seq<Span>, maskType: Bytes, tag: Bytes)
    returns (i: nat, p: Bytes, sub: seq<Piece>, q: Bytes)
    requires SpansOk(spans, |before.content|) && PlainMatches(before.content, spans)
    requires MasksBracketed(before.entries) && BracketFree(tag) && !NoMatchTouches(before, spans)
    ensures var after := MaskMatches(before.content, spans, maskType, tag);
            StuckAt(after.content, before.entries + after.entries, i, p, sub, q)
  {
    hide MaskMatches, NoMatchTouches, PlainMatches, StuckAt;
    var k, at;
    k, i, at := TouchesInside(before, spans);
    var m, x := before.entries[i].masked, before.content;
    var whole := [Plain(m[1..|m| - 1])];
    RenderSingle(Plain(m[1..|m| - 1]));
    MaskSize(m);
    WrapOfMask(m);
    assert Ranges(whole, at + 1) == {} by { assert whole[1..] == []; }
    p, q := x[..at], x[at + |m|..];
    assert x == p + m + q by { assert x[at..at + |m|] == m; }
    p, sub, q := RuleSticks(before, spans, maskType, tag, i, p, whole, q);
  }

  lemma WrapOfMask(m: Bytes)
    requires Bracketed(m)
    ensures Wrap(m[1..|m| - 1]) == m
  {
  }

  /** A rule that is clear leaves a broken placeholder broken. */
  lemma {:induction false} RuleKeepsBroken(before: MaskResult, spans: seq<Span>, maskType: Bytes, tag: Bytes,
                                           i: nat, p: Bytes, sub: seq<Piece>, q: Bytes)
    returns (p': Bytes, sub': seq<Piece>, q': Bytes)
    requires SpansOk(spans, |before.content|) && PlainMatches(before.content, spans)
    requires MasksBracketed(before.entries) && BracketFree(tag) && NoMatchTouches(before, spans)
    requires StuckAt(before.content, before.entries, i, p, sub, q)
    ensures var after := MaskMatches(before.content, spans, maskType, tag);
            StuckAt(after.content, before.entries + after.entries, i, p', sub', q')
  {
    hide MaskMatches, PlainMatches, Render, Restore, TokenSet, Ranges, NoMatchTouches, Clear;
    forall k | 0 <= k < |spans| ensures Clear(spans[k].lo, spans[k].hi, Ranges(sub, |p| + 1)) {
      BrokenClear(before, spans, k, i, p, sub, q);
    }
    p', sub', q' := RuleSticks(before, spans, maskType, tag, i, p, sub, q);
  }

  lemma BrokenClear(before: MaskResult, spans: seq<Span>, k: nat, i: nat, p: Bytes, sub: seq<Piece>, q: Bytes)
    requires NoMatchTouches(before, spans) && k < |spans| && i < |before.entries|
    requires before.content == Around(p, sub, q) && TokensFrom(sub, before.entries[i + 1..])
    ensures Clear(spans[k].lo, spans[k].hi, Ranges(sub, |p| + 1))
  {
    hide Render, TokenSet, Ranges;
    var es, s := before.entries, p + [OPEN] + Render(sub);
    assert before.content == s + ([CLOSE] + q);
    forall r | r in Ranges(sub, |p| + 1) ensures spans[k].hi <= r.lo || r.hi <= spans[k].lo {
      assert |p| + 1 == |p + [OPEN]|;
      RangesOccur(sub, p + [OPEN], r);
      var x :| x in TokenSet(sub) && OccursAt(x.masked, s, r.lo) && r.hi == r.lo + |x.masked|;
      assert IsEntry(x, es[i + 1..]);
      var j :| 0 <= j < |es[i + 1..]| && es[i + 1..][j].masked == x.masked && es[i + 1..][j].original == x.original;
      assert es[i + 1 + j].masked == x.masked;
      assert before.content[r.lo..r.lo + |x.masked|] == s[r.lo..r.lo + |x.masked|];
      assert OccursAt(es[i + 1 + j].masked, before.content, r.lo);
    }
  }

  /** If some rule matched into an earlier placeholder, a broken one stands in the masked text. */
  lemma {:induction false} UnclearSticks(content: Bytes, rules: seq<CompiledRule>, upper: Upper)
    returns (i: nat, p: Bytes, sub: seq<Piece>, q: Bytes)
    requires LabelsOk(rules, upper) && OriginalsPlain(Masked(content, rules, upper).entries)
    requires !MatchesClear(content, rules, upper)
    ensures StuckAt(Masked(content, rules, upper).content, Masked(content, rules, upper).entries, i, p, sub, q)
    decreases |rules|
  {
    hide MaskMatches, NoMatchTouches, Label, BracketFree, StuckAt, Matches;
    var n := |rules| - 1;
    var before := Masked(content, rules[..n], upper);
    var spans := Matches(before.content, rules[n]);
    var maskType, tag := RuleName(rules[n].name), Label(upper, rules[n].name);
    var after := MaskMatches(before.content, spans, maskType, tag);
    EntriesWellFormed(content, rules[..n], upper);
    PlainParts(before.entries, after.entries);
    MatchesPlain(before.content, spans, maskType, tag);
    if NoMatchTouches(before, spans) {
      i, p, sub, q := UnclearSticks(content, rules[..n], upper);
      p, sub, q := RuleKeepsBroken(before, spans, maskType, tag, i, p, sub, q);
    } else {
      i, p, sub, q := RuleBreaks(before, spans, maskType, tag);
    }
  }

  /** For plain originals and placeholders that were not in the request, unmasking undoes masking
      if and only if no rule matched into a placeholder of an earlier rule. */
  lemma {:induction false} ClearExactly(content: Bytes, rules: seq<CompiledRule>, upper: Upper)
    requires LabelsOk(rules, upper)
    requires var es := Masked(content, rules, upper).entries; OriginalsPlain(es) && MasksAbsent(es, content)
    ensures var r := Masked(content, rules, upper);
            Unmasked(r.content, r.entries) == content <==> MatchesClear(content, rules, upper)
  {
    hide Masked, MatchesClear, Unmasked, OriginalsPlain, LabelsOk, Infix;
    var r := Masked(content, rules, upper);
    if MatchesClear(content, rules, upper) {
      UnmaskUndoesMask(content, rules, upper);
    } else {
      EntriesWellFormed(content, rules, upper);
      var i, p, sub, q := UnclearSticks(content, rules, upper);
      StuckFirst(p, sub, q, r.entries, i);
    }
  }
}
