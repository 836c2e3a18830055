/** Unmasking a stream chunk by chunk: `unmaskStreaming` in
    `proxy/internal/handler/sse_helpers.go` and the same loop in `proxy.go`.

    The reader is the sequence of byte chunks it delivers, followed by end of file or
    an error. The writer accepts a fixed number of bytes and fails after that. */
module Streaming {
  import opened ByteStrings
  import opened Masking
  import opened RoundTrip

  // ---------------------------------------------------------------------
  // The safe cutoff
  // ---------------------------------------------------------------------

  /** The text ends in a strict prefix of some placeholder. */
  ghost predicate Conflict(x: Bytes, entries: seq<MaskEntry>) {
    exists i :: 0 <= i < |entries| && EndsPartial(x, entries[i].masked)
  }

  ghost predicate IsCutoff(s: int, pending: Bytes, entries: seq<MaskEntry>) {
    && 0 <= s <= |pending| && !Conflict(pending[..s], entries)
    && forall t :: s < t <= |pending| ==> Conflict(pending[..t], entries)
  }

  /** The longest prefix that does not end inside a possible placeholder. */
  ghost function SafeCutoff(pending: Bytes, entries: seq<MaskEntry>): (s: nat)
    ensures IsCutoff(s, pending, entries)
    decreases |pending|
  {
    if !Conflict(pending, entries) then
      assert pending[..|pending|] == pending;
      |pending|
    else
      assert pending != [] by { assert forall i :: 0 <= i < |entries| ==> !EndsPartial([], entries[i].masked); }
      var n := |pending| - 1;
      var s := SafeCutoff(pending[..n], entries);
      assert pending[..n][..s] == pending[..s];
      assert forall t :: 0 <= t <= n ==> pending[..n][..t] == pending[..t];
      assert pending[..|pending|] == pending;
      s
  }

  ghost function MaxMaskLen(entries: seq<MaskEntry>): nat
    decreases |entries|
  {
    if entries == [] then 0
    else
      var n := |entries| - 1;
      var l := MaxMaskLen(entries[..n]);
      if |entries[n].masked| > l then |entries[n].masked| else l
  }

  method LongestMask(entries: seq<MaskEntry>) returns (maxLen: nat)
    ensures maxLen == MaxMaskLen(entries)
  {
    maxLen := 0;
    for i := 0 to |entries|
      invariant maxLen == MaxMaskLen(entries[..i])
    {
      assert entries[..i + 1][..i] == entries[..i];
      if |entries[i].masked| > maxLen {
        maxLen := |entries[i].masked|;
      }
    }
    assert entries[..|entries|] == entries;
  }

  lemma {:induction false} MaxMaskLenBounds(entries: seq<MaskEntry>)
    ensures forall i :: 0 <= i < |entries| ==> |entries[i].masked| <= MaxMaskLen(entries)
    decreases |entries|
  {
    if entries == [] {
    } else {
      var n := |entries| - 1;
      MaxMaskLenBounds(entries[..n]);
      forall i | 0 <= i < |entries| ensures |entries[i].masked| <= MaxMaskLen(entries) {
        if i < n { assert entries[..n][i] == entries[i]; }
      }
    }
  }

  /** The inner loop of the cutoff search: does `x` end in a strict prefix of `m`? */
  method FindPartial(x: Bytes, m: Bytes) returns (found: bool)
    ensures found <==> EndsPartial(x, m)
  {
    if |m| <= 1 {
      return false;
    }
    var maxK := |m| - 1;
    if maxK > |x| {
      maxK := |x|;
    }
    var k := 1;
    while k <= maxK
      invariant 1 <= k <= maxK + 1
      invariant forall j :: 1 <= j < k ==> !EndsWithPrefix(x, m, j)
    {
      if x[|x| - k..] == m[..k] {
        assert EndsWithPrefix(x, m, k);
        return true;
      }
      k := k + 1;
    }
    return false;
  }

  method FindConflict(x: Bytes, entries: seq<MaskEntry>) returns (conflict: bool)
    ensures conflict <==> Conflict(x, entries)
  {
    hide EndsPartial;
    for i := 0 to |entries|
      invariant forall j :: 0 <= j < i ==> !EndsPartial(x, entries[j].masked)
    {
      var found := FindPartial(x, entries[i].masked);
      if found {
        return true;
      }
    }
    return false;
  }

  lemma EmptyNeverConflicts(entries: seq<MaskEntry>)
    ensures !Conflict([], entries)
  {
  }

  /** `safeCutoff`: walks back from the end until nothing conflicts. */
  method FindSafeCutoff(pending: Bytes, entries: seq<MaskEntry>, maxLen: nat, eof: bool) returns (s: nat)
    requires maxLen == MaxMaskLen(entries)
    ensures s == if eof then |pending| else SafeCutoff(pending, entries)
  {
    hide Conflict, SafeCutoff;
    if eof {
      return |pending|;
    }
    if maxLen <= 1 {
      ShortMasksNeverConflict(pending, entries);
      CutoffUnique(|pending|, pending, entries);
      return |pending|;
    }
    s := |pending|;
    while s >= 0
      invariant 0 <= s <= |pending|
      invariant forall t :: s < t <= |pending| ==> Conflict(pending[..t], entries)
      decreases s
    {
      var conflict := FindConflict(pending[..s], entries);
      if !conflict {
        CutoffUnique(s, pending, entries);
        return;
      }
      EmptyNeverConflicts(entries);
      assert s != 0;
      s := s - 1;
    }
  }

  lemma ShortMasksNeverConflict(pending: Bytes, entries: seq<MaskEntry>)
    requires MaxMaskLen(entries) <= 1
    ensures IsCutoff(|pending|, pending, entries)
  {
  }

  lemma CutoffUnique(s: int, pending: Bytes, entries: seq<MaskEntry>)
    requires IsCutoff(s, pending, entries)
    ensures s == SafeCutoff(pending, entries)
  {
  }

  /** Reading more never moves the cutoff back. */
  lemma CutoffGrows(p: Bytes, q: Bytes, entries: seq<MaskEntry>)
    ensures SafeCutoff(p, entries) <= SafeCutoff(p + q, entries)
  {
    hide Conflict;
    var s := SafeCutoff(p, entries);
    assert IsCutoff(s, p, entries);
    assert (p + q)[..s] == p[..s];
    assert IsCutoff(SafeCutoff(p + q, entries), p + q, entries);
  }

  // ---------------------------------------------------------------------
  // Unmasking distributes over a safe cut
  // ---------------------------------------------------------------------

  /** No restored original can stand at the beginning of a later placeholder. */
  ghost predicate NoBridges(entries: seq<MaskEntry>) {
    forall i, j :: 0 <= i < j < |entries| ==> !Bridges(entries[i].original, entries[j].masked)
  }

  ghost predicate Streamable(entries: seq<MaskEntry>) {
    MasksNonempty(entries) && NoBridges(entries)
  }

  lemma {:induction false} UnmaskDistributes(x: Bytes, y: Bytes, entries: seq<MaskEntry>)
    requires Streamable(entries) && !Conflict(x, entries)
    ensures Unmasked(x + y, entries) == Unmasked(x, entries) + Unmasked(y, entries)
    decreases |entries|
  {
    hide Bridges, EndsPartial;
    if entries == [] {
    } else {
      var e, rest := entries[0], entries[1..];
      ReplaceDistributes(x, y, e.masked, e.original);
      var x' := ReplaceAll(x, e.masked, e.original);
      forall j | 0 <= j < |rest| ensures !EndsPartial(x', rest[j].masked) {
        assert rest[j] == entries[j + 1];
        SafeAfterReplace(x, e.masked, e.original, rest[j].masked);
      }
      forall i, j | 0 <= i < j < |rest| ensures !Bridges(rest[i].original, rest[j].masked) {
        assert rest[i] == entries[i + 1] && rest[j] == entries[j + 1];
      }
      UnmaskDistributes(x', ReplaceAll(y, e.masked, e.original), rest);
    }
  }

  // ---------------------------------------------------------------------
  // The streaming loop as a fold over the chunks
  // ---------------------------------------------------------------------

  /** `pending` is everything read, `out` everything written so far. */
  datatype Stream = Stream(pending: Bytes, out: Bytes)

  /** `flush`: unmask the first `cut` pending bytes and write what lies past the bytes
      already written. */
  function Flush(st: Stream, cut: nat, entries: seq<MaskEntry>): Stream
    requires cut <= |st.pending|
  {
    var full := Unmasked(st.pending[..cut], entries);
    if |full| <= |st.out| then st else st.(out := st.out + full[|st.out|..])
  }

  /** One read that delivered `chunk`. */
  ghost function Feed(st: Stream, chunk: Bytes, entries: seq<MaskEntry>): Stream {
    if chunk == [] then st
    else
      var st' := st.(pending := st.pending + chunk);
      Flush(st', SafeCutoff(st'.pending, entries), entries)
  }

  ghost function FeedAll(chunks: seq<Bytes>, entries: seq<MaskEntry>): Stream {
    if chunks == [] then Stream([], [])
    else Feed(FeedAll(chunks[..|chunks| - 1], entries), chunks[|chunks| - 1], entries)
  }

  /** Everything written for a stream read as `chunks`; only end of file flushes the rest. */
  ghost function StreamOutput(chunks: seq<Bytes>, eof: bool, entries: seq<MaskEntry>): Bytes {
    var st := FeedAll(chunks, entries);
    if eof then Flush(st, |st.pending|, entries).out else st.out
  }

  function Concat(chunks: seq<Bytes>): Bytes {
    if chunks == [] then [] else Concat(chunks[..|chunks| - 1]) + chunks[|chunks| - 1]
  }

  /** Flushing at a later cut after an earlier safe one writes exactly the unmasked prefix. */
  lemma FlushExact(st: Stream, old_: nat, cut: nat, entries: seq<MaskEntry>)
    requires Streamable(entries) && old_ <= cut <= |st.pending| && !Conflict(st.pending[..old_], entries)
    requires st.out == Unmasked(st.pending[..old_], entries)
    ensures Flush(st, cut, entries).out == Unmasked(st.pending[..cut], entries)
    ensures st.out <= Flush(st, cut, entries).out
  {
    hide Unmasked, Conflict, Streamable;
    var p := st.pending;
    assert p[..cut] == p[..old_] + p[old_..cut];
    UnmaskDistributes(p[..old_], p[old_..cut], entries);
  }

  /** After any reads, the output is the unmasked safe prefix of what was read. */
  lemma {:induction false} FeedAllExact(chunks: seq<Bytes>, entries: seq<MaskEntry>)
    requires Streamable(entries)
    ensures var st := FeedAll(chunks, entries);
            && st.pending == Concat(chunks)
            && st.out == Unmasked(st.pending[..SafeCutoff(st.pending, entries)], entries)
    decreases |chunks|
  {
    hide Unmasked, Conflict, Streamable, SafeCutoff, Flush;
    if chunks == [] {
      assert SafeCutoff([], entries) == 0;
      UnmaskEmpty(entries);
    } else {
      var n := |chunks| - 1;
      FeedAllExact(chunks[..n], entries);
      var st, c := FeedAll(chunks[..n], entries), chunks[n];
      if c == [] {
        assert st.pending + c == st.pending;
      } else {
        var st' := st.(pending := st.pending + c);
        var old_ := SafeCutoff(st.pending, entries);
        assert IsCutoff(old_, st.pending, entries);
        CutoffGrows(st.pending, c, entries);
        assert st'.pending[..old_] == st.pending[..old_];
        FlushExact(st', old_, SafeCutoff(st'.pending, entries), entries);
        FlushKeepsPending(st', SafeCutoff(st'.pending, entries), entries);
      }
    }
  }

  lemma FlushKeepsPending(st: Stream, cut: nat, entries: seq<MaskEntry>)
    requires cut <= |st.pending|
    ensures Flush(st, cut, entries).pending == st.pending
  {
  }

  lemma {:induction false} UnmaskEmpty(entries: seq<MaskEntry>)
    requires Streamable(entries)
    ensures Unmasked([], entries) == []
    decreases |entries|
  {
    if entries == [] {
    } else {
      var rest := entries[1..];
      forall i, j | 0 <= i < j < |rest| ensures !Bridges(rest[i].original, rest[j].masked) {
        assert rest[i] == entries[i + 1] && rest[j] == entries[j + 1];
      }
      UnmaskEmpty(rest);
    }
  }

  /** Streaming equals unmasking the whole body, for every stream and every way of
      cutting it into reads. */
  lemma StreamingMatchesWhole(chunks: seq<Bytes>, entries: seq<MaskEntry>)
    requires Streamable(entries)
    ensures StreamOutput(chunks, true, entries) == Unmasked(Concat(chunks), entries)
  {
    hide Unmasked, Conflict, Streamable, SafeCutoff, FeedAll;
    FeedAllExact(chunks, entries);
    var st := FeedAll(chunks, entries);
    assert IsCutoff(SafeCutoff(st.pending, entries), st.pending, entries);
    FlushExact(st, SafeCutoff(st.pending, entries), |st.pending|, entries);
    assert st.pending[..|st.pending|] == st.pending;
  }

  /** Before the end of the stream, what was written is a prefix of what the whole body
      unmasks to, however the body goes on. */
  lemma StreamingIsPrefix(chunks: seq<Bytes>, more: Bytes, entries: seq<MaskEntry>)
    requires Streamable(entries)
    ensures StreamOutput(chunks, false, entries) <= Unmasked(Concat(chunks) + more, entries)
  {
    hide Unmasked, Conflict, Streamable, SafeCutoff, FeedAll;
    FeedAllExact(chunks, entries);
    var p := Concat(chunks);
    var s := SafeCutoff(p, entries);
    assert IsCutoff(s, p, entries);
    assert p + more == p[..s] + (p[s..] + more);
    UnmaskDistributes(p[..s], p[s..] + more, entries);
  }

  // ---------------------------------------------------------------------
  // What is held back
  // ---------------------------------------------------------------------

  /** Beginnings of placeholders, one after another. */
  ghost predicate Beginnings(w: Bytes, entries: seq<MaskEntry>)
    decreases |w|
  {
    w == [] || exists i, k ::
      && 0 <= i < |entries| && 1 <= k < |entries[i].masked| && k <= |w|
      && w[|w| - k..] == entries[i].masked[..k] && Beginnings(w[..|w| - k], entries)
  }

  /** A placeholder that begins before a cut and runs past it makes the cut unsafe. */
  lemma CutInside(p: Bytes, s: nat, t: nat, m: Bytes, k: nat)
    requires s <= t <= |p| && t - s < k < |m| && EndsWithPrefix(p[..t], m, k)
    ensures EndsPartial(p[..s], m)
  {
    var l := k - (t - s);
    assert p[..s][s - l..] == p[..t][t - k..][..l];
    assert m[..k][..l] == m[..l];
    assert EndsWithPrefix(p[..s], m, l);
  }

  lemma BeginningsUnfold(w: Bytes, rest: Bytes, k: nat, i: nat, entries: seq<MaskEntry>)
    requires i < |entries| && 1 <= k < |entries[i].masked| && k <= |w|
    requires w[|w| - k..] == entries[i].masked[..k] && rest == w[..|w| - k] && Beginnings(rest, entries)
    ensures Beginnings(w, entries)
  {
  }

  lemma BeginningsAppend(p: Bytes, s: nat, t: nat, k: nat, i: nat, entries: seq<MaskEntry>)
    requires i < |entries| && 1 <= k < |entries[i].masked| && s <= t - k && t <= |p|
    requires EndsWithPrefix(p[..t], entries[i].masked, k) && Beginnings(p[s..t - k], entries)
    ensures Beginnings(p[s..t], entries)
  {
    hide Beginnings;
    var w := p[s..t];
    assert w[..|w| - k] == p[s..t - k];
    assert w[|w| - k..] == p[..t][t - k..] == entries[i].masked[..k];
    BeginningsUnfold(w, p[s..t - k], k, i, entries);
  }

  lemma {:induction false} BeginningsUpTo(p: Bytes, s: nat, t: nat, entries: seq<MaskEntry>)
    requires IsCutoff(s, p, entries) && s <= t <= |p|
    ensures Beginnings(p[s..t], entries)
    decreases t
  {
    hide EndsWithPrefix;
    if t == s {
    } else {
      assert Conflict(p[..t], entries);
      var i :| 0 <= i < |entries| && EndsPartial(p[..t], entries[i].masked);
      var k :| 1 <= k < |entries[i].masked| && EndsWithPrefix(p[..t], entries[i].masked, k);
      hide Beginnings, EndsPartial;
      if k > t - s { CutInside(p, s, t, entries[i].masked, k); }
      BeginningsUpTo(p, s, t - k, entries);
      BeginningsAppend(p, s, t, k, i, entries);
    }
  }

  /** Before the end of the stream everything is written but a rest that consists of beginnings of
      placeholders; what is written does not itself end in one. */
  lemma HoldsBackBeginnings(chunks: seq<Bytes>, entries: seq<MaskEntry>) returns (s: nat)
    requires Streamable(entries)
    ensures s <= |Concat(chunks)| && StreamOutput(chunks, false, entries) == Unmasked(Concat(chunks)[..s], entries)
    ensures Beginnings(Concat(chunks)[s..], entries)
    ensures forall i, k :: 0 <= i < |entries| && 1 <= k < |entries[i].masked| && k <= s ==>
              Concat(chunks)[s - k..s] != entries[i].masked[..k]
  {
    var p := Concat(chunks);
    s := SafeCutoff(p, entries);
    FeedAllExact(chunks, entries);
    BeginningsUpTo(p, s, |p|, entries);
    assert p[s..|p|] == p[s..];
    forall i, k | 0 <= i < |entries| && 1 <= k < |entries[i].masked| && k <= s
      ensures p[s - k..s] != entries[i].masked[..k]
    {
      assert p[..s][|p[..s]| - k..] == p[s - k..s];
      if p[s - k..s] == entries[i].masked[..k] { assert EndsWithPrefix(p[..s], entries[i].masked, k); }
    }
  }

  /** That rest has no bound: of a body of opening brackets nothing is written before its end. */
  lemma OpeningBracketsWait(chunks: seq<Bytes>, entries: seq<MaskEntry>)
    requires Streamable(entries) && entries != [] && Bracketed(entries[0].masked)
    requires forall b :: b in Concat(chunks) ==> b == OPEN
    ensures StreamOutput(chunks, false, entries) == []
  {
    hide Unmasked, Bracketed;
    var p, m := Concat(chunks), entries[0].masked;
    BracketedLength(m);
    BracketedEnds(m);
    forall t | 0 < t <= |p| ensures Conflict(p[..t], entries) {
      assert p[t - 1] in p;
      assert p[..t][t - 1..] == m[..1];
      assert EndsWithPrefix(p[..t], m, 1);
    }
    assert !Conflict(p[..0], entries) by { EmptyNeverConflicts(entries); }
    CutoffUnique(0, p, entries);
    FeedAllExact(chunks, entries);
    UnmaskEmpty(entries);
    assert p[..0] == [];
  }

  /** One entry needs nothing but a nonempty placeholder. */
  lemma SingleEntryStreams(chunks: seq<Bytes>, e: MaskEntry)
    requires e.masked != []
    ensures StreamOutput(chunks, true, [e]) == Unmasked(Concat(chunks), [e])
  {
    StreamingMatchesWhole(chunks, [e]);
  }

  // ---------------------------------------------------------------------
  // Exactly when several entries stream
  // ---------------------------------------------------------------------

  /** No original is part of the placeholder of a later entry. */
  ghost predicate NotInsideLater(entries: seq<MaskEntry>) {
    forall i, j :: 0 <= i < j < |entries| ==> !Infix(entries[i].original, entries[j].masked)
  }

  lemma BracketFreeNoBridge(o: Bytes, m: Bytes)
    requires BracketFree(o) && Bracketed(m) && !Infix(o, m)
    ensures !Bridges(o, m)
  {
    hide Bracketed, Infix;
    assert o != [] by {
      if o == [] { assert OccursAt(o, m, 0); InfixIntro(o, m, 0); }
    }
    if k :| 0 < k < |m| && OverlapsAt(o, m, k) {
      OverlapBracketFree(o, m, k);
      BracketedEnds(m);
      assert k - |o| > 0 by { assert m[0] == OPEN; }
      OverlapInside(o, m, k);
      InfixIntro(o, m, k - |o|);
    }
  }

  lemma InfixIntro(o: Bytes, m: Bytes, q: int)
    requires OccursAt(o, m, q)
    ensures Infix(o, m)
  {
  }

  ghost predicate StreamsFaithfully(entries: seq<MaskEntry>) {
    forall chunks: seq<Bytes> :: StreamOutput(chunks, true, entries) == Unmasked(Concat(chunks), entries)
  }

  ghost predicate OriginalsBracketFree(entries: seq<MaskEntry>) {
    forall i :: 0 <= i < |entries| ==> BracketFree(entries[i].original)
  }

  lemma OccurrenceLast(m: Bytes, x: Bytes, q: int)
    requires Bracketed(m) && OccursAt(m, x, q)
    ensures CLOSE in x
  {
  }

  /** A text without `]` is left alone. */
  lemma CloseFreeUnchanged(x: Bytes, entries: seq<MaskEntry>)
    requires MasksBracketed(entries) && CLOSE !in x
    ensures Unmasked(x, entries) == x
  {
    hide Unmasked;
    forall i | 0 <= i < |entries| ensures entries[i].masked != [] && !Infix(entries[i].masked, x) {
      var m := entries[i].masked;
      if q :| OccursAt(m, x, q) {
        OccurrenceLast(m, x, q);
      }
    }
    UnmaskedAbsent(x, entries);
  }

  /** The only placeholder in `u` + `m` + `v` is replaced, the rest stays. */
  lemma ReplaceOnly(u: Bytes, m: Bytes, v: Bytes, o: Bytes)
    requires Bracketed(m) && CLOSE !in u && OPEN !in v
    ensures ReplaceAll(u + m + v, m, o) == u + o + v
  {
    hide Bracketed;
    var s := u + m + v;
    forall q | 0 <= q < |u| ensures !OccursAt(m, s, q) {
      if OccursAt(m, s, q) { OnlyOccurrence(u, m, v, m, q); }
    }
    assert m != [] by { BracketedEnds(m); assert Bracketed(m); assert |m| >= 2 by { BracketedLength(m); } }
    ReplaceSkips(s, |u|, m, o);
    assert s[..|u|] == u && s[|u|..] == m + v && (m + v)[|m|..] == v;
    if q :| OccursAt(m, v, q) {
      OccurrenceBytes(m, v, q);
      BracketedEnds(m);
      assert v[q] == OPEN by { BracketedLength(m); }
    }
    ReplaceAbsent(v, m, o);
    Assoc(u, o, v);
  }

  lemma BracketedLength(m: Bytes)
    requires Bracketed(m)
    ensures |m| >= 2
  {
  }

  /** A lone placeholder between harmless text: every other entry leaves it alone. */
  lemma {:induction false} OthersAbsent(u: Bytes, m: Bytes, v: Bytes, entries: seq<MaskEntry>)
    requires Bracketed(m) && CLOSE !in u && OPEN !in v && MasksBracketed(entries)
    requires forall i :: 0 <= i < |entries| ==> entries[i].masked != m
    ensures Unmasked(u + m + v, entries) == u + m + v
  {
    hide Unmasked, Bracketed;
    var s := u + m + v;
    forall i | 0 <= i < |entries| ensures entries[i].masked != [] && !Infix(entries[i].masked, s) {
      BracketedLength(entries[i].masked);
      if q :| OccursAt(entries[i].masked, s, q) {
        OnlyOccurrence(u, m, v, entries[i].masked, q);
      }
    }
    UnmaskedAbsent(s, entries);
  }

  /** Unmasking `u` + placeholder `j` + `v` reaches `u` + original + `v` after entry `j`. */
  lemma {:induction false} UnmaskOne(u: Bytes, j: nat, v: Bytes, entries: seq<MaskEntry>)
    requires j < |entries| && MasksBracketed(entries) && MasksDistinct(entries) && CLOSE !in u && OPEN !in v
    ensures Unmasked(u + entries[j].masked + v, entries) == Unmasked(u + entries[j].original + v, entries[j + 1..])
  {
    hide Bracketed;
    var s, e := u + entries[j].masked + v, entries[j];
    var a, b := entries[..j], entries[j..];
    assert entries == a + b && b[0] == e && b[1..] == entries[j + 1..];
    UnmaskedSplit(s, a, b);
    OthersAbsent(u, e.masked, v, a);
    ReplaceOnly(u, e.masked, v, e.original);
  }

  /** If an original is part of a later placeholder, this stream goes wrong: the beginning
      of the later placeholder, then the earlier one, then the end of the later one. */
  lemma {:induction false} NestedStreamFails(i: nat, j: nat, entries: seq<MaskEntry>) returns (chunks: seq<Bytes>)
    requires MasksBracketed(entries) && MasksDistinct(entries) && OriginalsBracketFree(entries)
    requires i < j < |entries| && Infix(entries[i].original, entries[j].masked)
    ensures StreamOutput(chunks, true, entries) != Unmasked(Concat(chunks), entries)
  {
    hide Unmasked, Bracketed, SafeCutoff, MasksBracketed;
    var o, mi, mj, oj := entries[i].original, entries[i].masked, entries[j].masked, entries[j].original;
    assert Bracketed(mi) && Bracketed(mj) by { MaskIsBracketed(i, entries); MaskIsBracketed(j, entries); }
    var q := SplitAround(o, mj);
    var a, b := mj[..q], mj[q + |o|..];
    chunks := [a + mi, b];
    // the first read
    AroundParts(o, mj, q);
    PrefixOutput(a, i, entries);
    assert Unmasked(a + mi, entries) == a + o by {
      assert a + mi + [] == a + mi && a + o + [] == a + o;
      UnmaskOne(a, i, [], entries);
      CloseFreeUnchanged(a + o, TailOf(entries, i + 1));
    }
    // the whole text
    assert Unmasked(a + mi + b, entries) == oj by {
      UnmaskOne(a, i, b, entries);
      assert a + o + b == mj;
      var rest := TailOf(entries, i + 1);
      assert rest[j - i - 1] == entries[j];
      assert [] + mj + [] == mj && [] + oj + [] == oj;
      UnmaskOne([], j - i - 1, [], rest);
      CloseFreeUnchanged(oj, TailOf(rest, j - i));
    }
    TwoReads(a + mi, b, entries);
    assert (a + o)[0] == OPEN;
  }

  lemma MaskIsBracketed(i: nat, entries: seq<MaskEntry>)
    requires MasksBracketed(entries) && i < |entries|
    ensures Bracketed(entries[i].masked)
  {
  }

  function TailOf(entries: seq<MaskEntry>, n: nat): (r: seq<MaskEntry>)
    requires n <= |entries|
    ensures r == entries[n..]
    ensures MasksBracketed(entries) ==> MasksBracketed(r)
    ensures MasksDistinct(entries) ==> MasksDistinct(r)
  {
    entries[n..]
  }

  /** Where to cut a placeholder around an inner text: after `[` and before `]`. */
  lemma SplitAround(o: Bytes, m: Bytes) returns (q: nat)
    requires BracketFree(o) && Bracketed(m) && Infix(o, m)
    ensures 1 <= q && q + |o| < |m| && m[q..q + |o|] == o
  {
    if o == [] {
      q := 1;
    } else {
      var p :| OccursAt(o, m, p);
      OccurrenceBytes(o, m, p);
      BracketedEnds(m);
      assert m[p] == o[0] && m[p + |o| - 1] == o[|o| - 1];
      q := p;
    }
  }

  lemma AroundParts(o: Bytes, m: Bytes, q: nat)
    requires BracketFree(o) && Bracketed(m) && 1 <= q && q + |o| < |m| && m[q..q + |o|] == o
    ensures m[..q] + o + m[q + |o|..] == m
    ensures CLOSE !in m[..q] && OPEN !in m[q + |o|..] && CLOSE !in m[..q] + o && CLOSE !in o
    ensures (m[..q] + o)[0] == OPEN && m[q + |o|..] != []
  {
    BracketedEnds(m);
    assert m[..q] + o == m[..q + |o|];
  }

  /** A text that ends inside a placeholder does not end with its closing bracket. */
  lemma PartialLast(p: Bytes, m: Bytes)
    requires Bracketed(m) && EndsPartial(p, m)
    ensures p != [] && p[|p| - 1] != CLOSE
  {
    BracketedEnds(m);
    var k :| 1 <= k < |m| && EndsWithPrefix(p, m, k);
    assert p[|p| - k..][k - 1] == m[..k][k - 1] == m[k - 1];
  }

  lemma PrefixOutput(a: Bytes, i: nat, entries: seq<MaskEntry>)
    requires i < |entries| && MasksBracketed(entries)
    ensures SafeCutoff(a + entries[i].masked, entries) == |a + entries[i].masked|
  {
    hide SafeCutoff, Bracketed;
    var p := a + entries[i].masked;
    BracketedLength(entries[i].masked);
    BracketedEnds(entries[i].masked);
    forall j | 0 <= j < |entries| ensures !EndsPartial(p, entries[j].masked) {
      if EndsPartial(p, entries[j].masked) { PartialLast(p, entries[j].masked); }
    }
    assert p[..|p|] == p;
    CutoffUnique(|p|, p, entries);
  }

  /** The output for two reads of which the first is unmasked completely. */
  lemma {:induction false} TwoReads(x: Bytes, y: Bytes, entries: seq<MaskEntry>)
    requires x != [] && y != [] && SafeCutoff(x, entries) == |x|
    ensures Concat([x, y]) == x + y
    ensures Unmasked(x, entries) <= StreamOutput([x, y], true, entries)
  {
    hide Unmasked, SafeCutoff;
    assert [x, y][..1] == [x] && [x][..0] == [];
    assert [] + x == x && x[..|x|] == x;
    var st0 := FeedAll([], entries);
    var st1 := FeedAll([x], entries);
    assert st1 == Feed(st0, x, entries);
    assert Concat([x]) == Concat([]) + x;
    assert Concat([x, y]) == Concat([x]) + y;
    assert Unmasked(x, entries)[0..] == Unmasked(x, entries);
    assert st1.out == Unmasked(x, entries);
    var st2 := FeedAll([x, y], entries);
    assert st2 == Feed(st1, y, entries);
    assert st1.out <= st2.out;
  }

  /** Several entries whose originals carry no bracket stream faithfully if and only if no
      original is part of a later placeholder. */
  lemma StreamsExactly(entries: seq<MaskEntry>)
    requires MasksBracketed(entries) && MasksDistinct(entries) && OriginalsBracketFree(entries)
    ensures StreamsFaithfully(entries) <==> NotInsideLater(entries)
  {
    hide StreamOutput, Unmasked, Bridges;
    if NotInsideLater(entries) {
      forall i, j | 0 <= i < j < |entries| ensures !Bridges(entries[i].original, entries[j].masked) {
        BracketFreeNoBridge(entries[i].original, entries[j].masked);
      }
      forall chunks: seq<Bytes> ensures StreamOutput(chunks, true, entries) == Unmasked(Concat(chunks), entries) {
        StreamingMatchesWhole(chunks, entries);
      }
    } else {
      var i, j :| 0 <= i < j < |entries| && Infix(entries[i].original, entries[j].masked);
      var chunks := NestedStreamFails(i, j, entries);
    }
  }

  // ---------------------------------------------------------------------
  // The echo corollary
  // ---------------------------------------------------------------------

  /** Any chunked echo of the masked body streams back as the original body. */
  lemma {:induction false} EchoRestores(content: Bytes, rules: seq<CompiledRule>, upper: Upper, chunks: seq<Bytes>)
    requires LabelsOk(rules, upper) && MatchesClear(content, rules, upper)
    requires var r := Masked(content, rules, upper);
             MasksAbsent(r.entries, content) && NoBridges(r.entries) && Concat(chunks) == r.content
    ensures StreamOutput(chunks, true, Masked(content, rules, upper).entries) == content
  {
    hide Masked, MatchesClear, StreamOutput, Unmasked;
    EntriesWellFormed(content, rules, upper);
    UnmaskUndoesMask(content, rules, upper);
    StreamingMatchesWhole(chunks, Masked(content, rules, upper).entries);
  }
}
