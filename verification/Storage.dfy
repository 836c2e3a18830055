/** What the storage mode of `proxy/internal/handler/proxy.go` keeps: re-masking an output replaces
    its originals by placeholders, and unmasking with the same entries gives the output back. */
module Storage {
  import opened ByteStrings
  import opened Masking
  import opened RoundTrip
  import opened Phone

  /** An occurrence of a bracket-free text that is no part of a token's placeholder touches no token. */
  lemma OutsideTokens(ps: seq<Piece>, o: Bytes, q: nat)
    requires TokensBracketed(ps) && o != [] && BracketFree(o) && OccursAt(o, Render(ps), q)
    requires forall p :: p in TokenSet(ps) ==> !Infix(o, p.masked)
    ensures Clear(q, q + |o|, Ranges(ps, 0))
  {
    hide Render, TokenSet, Ranges, Infix, Bracketed;
    var x := Render(ps);
    forall r | r in Ranges(ps, 0) ensures q + |o| <= r.lo || r.hi <= q {
      RangesOccur(ps, [], r);
      assert [] + Render(ps) == Render(ps);
      var p :| p in TokenSet(ps) && OccursAt(p.masked, x, r.lo) && r.hi == r.lo + |p.masked|;
      if q < r.hi && r.lo < q + |o| { InsideToken(o, p.masked, x, q, r.lo); }
    }
  }

  lemma InsideToken(o: Bytes, m: Bytes, x: Bytes, q: nat, lo: nat)
    requires BracketFree(o) && Bracketed(m) && OccursAt(o, x, q) && OccursAt(m, x, lo)
    requires q < lo + |m| && lo < q + |o|
    ensures Infix(o, m)
  {
    OccurrenceBytes(o, x, q);
    OccurrenceBytes(m, x, lo);
    var last := lo + |m| - 1;
    assert x[lo] == m[0] == OPEN && x[last] == m[|m| - 1] == CLOSE;
    assert lo < q && q + |o| <= last;
    assert m[q - lo..q - lo + |o|] == o;
    assert OccursAt(o, m, q - lo);
  }

  /** The first occurrence. */
  lemma FirstOccurrence(o: Bytes, x: Bytes) returns (q: nat)
    requires Infix(o, x)
    ensures OccursAt(o, x, q) && forall p :: 0 <= p < q ==> !OccursAt(o, x, p)
  {
    var k :| OccursAt(o, x, k);
    q := 0;
    while !OccursAt(o, x, q)
      invariant q <= k && forall p :: 0 <= p < q ==> !OccursAt(o, x, p)
      decreases k - q
    {
      q := q + 1;
    }
  }

  /** Replacing an original by its placeholder turns copied text into tokens. */
  lemma {:induction false} MarksOriginals(ps: seq<Piece>, o: Bytes, m: Bytes) returns (ps': seq<Piece>)
    requires TokensBracketed(ps) && o != [] && BracketFree(o)
    requires forall p :: p in TokenSet(ps) ==> !Infix(o, p.masked)
    ensures Render(ps') == ReplaceAll(Render(ps), o, m) && Restore(ps') == Restore(ps)
    ensures TokenSet(ps') <= TokenSet(ps) + {Token(m, o)}
    decreases |Render(ps)|
  {
    hide Render, Restore, TokenSet, Ranges, Infix, BracketFree, Bracketed, ReplaceAll;
    var x := Render(ps);
    if !Infix(o, x) {
      ReplaceAbsent(x, o, m);
      return ps;
    }
    var q := FirstOccurrence(o, x);
    OutsideTokens(ps, o, q);
    var a, c := TokenStep(ps, Span(q, q + |o|), 0);
    var c' := MarksOriginals(c, o, m);
    ps' := a + ([Token(m, o)] + c');
    RenderConcat(a, [Token(m, o)] + c');
    RenderCons(Token(m, o), c');
    ReplaceFirst(x, q, o, m);
  }

  lemma ReplaceFirst(x: Bytes, q: nat, o: Bytes, m: Bytes)
    requires o != [] && OccursAt(o, x, q) && forall p :: 0 <= p < q ==> !OccursAt(o, x, p)
    ensures ReplaceAll(x, o, m) == x[..q] + (m + ReplaceAll(x[q + |o|..], o, m))
  {
    ReplaceSkips(x, q, o, m);
    assert x[q..][|o|..] == x[q + |o|..];
  }

  ghost predicate OriginalsNotInEarlier(entries: seq<MaskEntry>) {
    forall i, j :: 0 <= i < j < |entries| ==> !Infix(entries[j].original, entries[i].masked)
  }

  /** The stored text is a rendering of pieces whose original is the output. */
  lemma {:induction false} RemaskedPieces(ps: seq<Piece>, entries: seq<MaskEntry>, j: nat) returns (ps': seq<Piece>)
    requires MasksBracketed(entries) && OriginalsPlain(entries) && OriginalsNotInEarlier(entries)
    requires j <= |entries| && TokensFrom(ps, entries[..j])
    ensures Render(ps') == Remasked(Render(ps), entries[j..]) && Restore(ps') == Restore(ps)
    ensures TokensFrom(ps', entries)
    decreases |entries| - j
  {
    hide Render, Restore, TokenSet, Infix, BracketFree, Bracketed, ReplaceAll;
    if j == |entries| {
      assert entries[..j] == entries;
      return ps;
    }
    var e := entries[j];
    forall p | p in TokenSet(ps) ensures Bracketed(p.masked) && !Infix(e.original, p.masked) {
      assert IsEntry(p, entries[..j]);
      var i :| 0 <= i < j && entries[..j][i].masked == p.masked && entries[..j][i].original == p.original;
      assert entries[i].masked == p.masked;
    }
    var marked := MarksOriginals(ps, e.original, e.masked);
    forall p | p in TokenSet(marked) ensures IsEntry(p, entries[..j + 1]) {
      if p in TokenSet(ps) {
        assert IsEntry(p, entries[..j]);
        var i :| 0 <= i < j && entries[..j][i].masked == p.masked && entries[..j][i].original == p.original;
        assert entries[..j + 1][i] == entries[..j][i];
      } else {
        assert entries[..j + 1][j] == e;
      }
    }
    assert entries[j..][1..] == entries[j + 1..];
    ps' := RemaskedPieces(marked, entries, j + 1);
  }

  /** Unmasking what was stored gives the output back exactly when none of the placeholders was in
      it already, whatever the provider answered. */
  lemma StoredRestores(output: Bytes, entries: seq<MaskEntry>)
    requires MasksBracketed(entries) && MasksDistinct(entries) && OriginalsPlain(entries)
    requires NotInEarlierMasks(entries)
    ensures Unmasked(Remasked(output, entries), entries) == output <==> MasksAbsent(entries, output)
  {
    hide Render, Restore, TokenSet, Infix, BracketFree, Bracketed, Unmasked, Remasked;
    if MasksAbsent(entries, output) {
      RenderSingle(Plain(output));
      assert TokenSet([Plain(output)]) == {};
      var ps := RemaskedPieces([Plain(output)], entries, 0);
      assert entries[0..] == entries;
      UnmaskRestores(ps, entries);
    }
    NoPlaceholderRemains(Remasked(output, entries), entries);
  }

  /** With the preset the condition on the entries always holds. */
  lemma PhoneStoredRestores(content: Bytes, output: Bytes)
    ensures var es := PhoneMasked(content).entries;
            Unmasked(Remasked(output, es), es) == output <==> MasksAbsent(es, output)
  {
    hide Unmasked, Remasked, Masked;
    PhoneWellSuited(content);
    StoredRestores(output, PhoneMasked(content).entries);
  }
}
