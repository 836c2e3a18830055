/** Masking of request bodies and its inverse: `proxy/internal/masking/masker.go`.

    The regular expression engine is a parameter: a compiled rule carries a function
    that returns all its matches, and the only thing known about it is that the matches
    are in bounds, in order and disjoint. `strings.ToUpper` is a parameter as well. */
module Masking {
  import opened ByteStrings
  import Decimal

  const OPEN: byte := 91        // '['
  const CLOSE: byte := 93       // ']'
  const UNDERSCORE: byte := 95  // '_'
  const SPACE: byte := 32

  datatype MaskEntry = MaskEntry(maskType: Bytes, original: Bytes, masked: Bytes)

  datatype MaskResult = MaskResult(content: Bytes, entries: seq<MaskEntry>)

  // ---------------------------------------------------------------------
  // Unmasking
  // ---------------------------------------------------------------------

  /** One `ReplaceAll` per entry, first entry first. */
  function Unmasked(content: Bytes, entries: seq<MaskEntry>): Bytes
    decreases |entries|
  {
    if entries == [] then content
    else Unmasked(ReplaceAll(content, entries[0].masked, entries[0].original), entries[1..])
  }

  method UnmaskContent(content: Bytes, entries: seq<MaskEntry>) returns (result: Bytes)
    ensures result == Unmasked(content, entries)
  {
    result := content;
    for i := 0 to |entries|
      invariant Unmasked(result, entries[i..]) == Unmasked(content, entries)
    {
      result := ReplaceAll(result, entries[i].masked, entries[i].original);
      assert entries[i..][1..] == entries[i + 1..];
    }
  }

  lemma {:induction false} UnmaskedSplit(content: Bytes, a: seq<MaskEntry>, b: seq<MaskEntry>)
    ensures Unmasked(content, a + b) == Unmasked(Unmasked(content, a), b)
    decreases |a|
  {
    if a == [] {
      assert a + b == b;
    } else {
      assert (a + b)[1..] == a[1..] + b;
      UnmaskedSplit(ReplaceAll(content, a[0].masked, a[0].original), a[1..], b);
    }
  }

  /** Entries whose placeholders do not occur change nothing. */
  lemma {:induction false} UnmaskedAbsent(content: Bytes, entries: seq<MaskEntry>)
    requires forall i :: 0 <= i < |entries| ==> entries[i].masked != [] && !Infix(entries[i].masked, content)
    ensures Unmasked(content, entries) == content
    decreases |entries|
  {
    if entries == [] {
    } else {
      ReplaceAbsent(content, entries[0].masked, entries[0].original);
      UnmaskedAbsent(content, entries[1..]);
    }
  }

  ghost predicate MasksNonempty(entries: seq<MaskEntry>) {
    forall i :: 0 <= i < |entries| ==> entries[i].masked != []
  }

  // ---------------------------------------------------------------------
  // Placeholders
  // ---------------------------------------------------------------------

  predicate BracketFree(s: Bytes) {
    forall i :: 0 <= i < |s| ==> s[i] != OPEN && s[i] != CLOSE
  }

  /** `[w]` with no bracket inside `w`. */
  predicate Bracketed(m: Bytes) {
    |m| >= 2 && m[0] == OPEN && m[|m| - 1] == CLOSE && BracketFree(m[1..|m| - 1])
  }

  /** The placeholder `[NAME_n]`. */
  function Placeholder(name: Bytes, n: nat): Bytes {
    [OPEN] + name + [UNDERSCORE] + Decimal.Format(n) + [CLOSE]
  }

  lemma PlaceholderIsBracketed(name: Bytes, n: nat)
    requires BracketFree(name)
    ensures Bracketed(Placeholder(name, n))
  {
  }

  /** The number of a placeholder is exactly the run of digits before the bracket. */
  lemma PlaceholderTail(a: Bytes, i: nat)
    ensures var m, k := Placeholder(a, i), |Decimal.Format(i)|;
            && m == m[..1 + |a|] + [UNDERSCORE] + m[2 + |a|..|m| - 1] + [CLOSE]
            && m[1..1 + |a|] == a && m[2 + |a|..|m| - 1] == Decimal.Format(i)
            && |m| == |a| + k + 3 && m[|m| - 2 - k] == UNDERSCORE
            && forall j :: |m| - 2 - k < j < |m| - 1 ==> Decimal.IsDigit(m[j])
  {
  }

  /** `[NAME_n]` determines both the name and the number, whatever the name is. */
  lemma PlaceholderInjective(a: Bytes, i: nat, b: Bytes, j: nat)
    requires Placeholder(a, i) == Placeholder(b, j)
    ensures a == b && i == j
  {
    PlaceholderTail(a, i);
    PlaceholderTail(b, j);
    Decimal.ValueOfFormat(i);
    Decimal.ValueOfFormat(j);
  }

  /** Where the two ends of an occurrence are. */
  lemma OccurrenceBytes(t: Bytes, s: Bytes, q: int)
    requires OccursAt(t, s, q)
    ensures forall j :: q <= j < q + |t| ==> s[j] == t[j - q]
  {
  }

  lemma BracketedEnds(m: Bytes)
    requires Bracketed(m)
    ensures forall i :: 0 <= i < |m| ==> (m[i] == OPEN <==> i == 0) && (m[i] == CLOSE <==> i == |m| - 1)
  {
  }

  /** In `u` + `m` + `v` with no `]` before and no `[` after, `m` is the only
      placeholder that occurs, and it occurs only there. */
  lemma OnlyOccurrence(u: Bytes, m: Bytes, v: Bytes, t: Bytes, q: int)
    requires Bracketed(m) && Bracketed(t)
    requires CLOSE !in u && OPEN !in v
    requires OccursAt(t, u + m + v, q)
    ensures q == |u| && t == m
  {
    var s := u + m + v;
    OccurrenceBytes(t, s, q);
    BracketedEnds(t);
    BracketedEnds(m);
    assert s[q] == t[0] == OPEN;
    assert s[q + |t| - 1] == t[|t| - 1] == CLOSE;
    assert s[|u|] == m[0] == OPEN && s[|u| + |m| - 1] == CLOSE;
    assert q + |t| - 1 >= |u|;
    assert q <= |u|;
    assert q == |u|;
    assert |t| == |m|;
    forall i | 0 <= i < |t| ensures t[i] == m[i] {
      assert s[q + i] == t[i];
    }
  }

  /** No placeholder is an infix of another. */
  lemma PlaceholdersAreNotNested(m: Bytes, t: Bytes)
    requires Bracketed(m) && Bracketed(t) && Infix(t, m)
    ensures t == m
  {
    var q :| OccursAt(t, m, q);
    assert [] + m + [] == m;
    OnlyOccurrence([], m, [], t, q);
  }

  lemma OverlapInside(o: Bytes, t: Bytes, e: int)
    requires OverlapsAt(o, t, e) && 0 <= e - |o| && e <= |t|
    ensures OccursAt(o, t, e - |o|)
  {
  }

  lemma OverlapAround(o: Bytes, t: Bytes, e: int)
    requires OverlapsAt(o, t, e) && e - |o| <= 0 && e >= |t|
    ensures OccursAt(t, o, |o| - e)
  {
  }

  /** Bytes shared by a bracket-free text and anything else are not brackets. */
  lemma OverlapBracketFree(o: Bytes, t: Bytes, e: int)
    requires OverlapsAt(o, t, e)
    ensures BracketFree(o) ==>
              forall i :: 0 <= i < |t| && e - |o| <= i < e ==> t[i] != OPEN && t[i] != CLOSE
    ensures BracketFree(t) ==>
              forall j :: 0 <= j < |o| && 0 <= j + e - |o| < |t| ==> o[j] != OPEN && o[j] != CLOSE
  {
    if BracketFree(t) {
      forall j | 0 <= j < |o| && 0 <= j + e - |o| < |t| ensures o[j] != OPEN && o[j] != CLOSE {
        var i := j + e - |o|;
        assert t[i] == o[i - (e - |o|)];
      }
    }
  }

  /** A nonempty bracket-free text can overlap a placeholder only by lying inside it. */
  lemma BracketFreeNoClash(o: Bytes, t: Bytes)
    requires o != [] && BracketFree(o) && Bracketed(t) && !Infix(o, t)
    ensures !Clashes(o, t)
  {
    if e :| 0 < e < |t| + |o| && OverlapsAt(o, t, e) {
      OverlapBracketFree(o, t, e);
      BracketedEnds(t);
      assert 0 < e - |o| by { assert t[0] == OPEN; }
      assert e <= |t| by { assert t[|t| - 1] == CLOSE; }
      OverlapInside(o, t, e);
      assert false;
    }
  }

  /** The same overlap seen from the placeholder's side. */
  lemma PlaceholderNoClash(m: Bytes, t: Bytes)
    requires t != [] && BracketFree(t) && Bracketed(m) && !Infix(t, m)
    ensures !Clashes(m, t)
  {
    if e :| 0 < e < |t| + |m| && OverlapsAt(m, t, e) {
      OverlapBracketFree(m, t, e);
      BracketedEnds(m);
      assert e - |m| < 0 by { assert m[0] == OPEN; }
      assert e > |t| by { assert m[|m| - 1] == CLOSE; }
      OverlapAround(m, t, e);
      assert false;
    }
  }

  // ---------------------------------------------------------------------
  // Masking
  // ---------------------------------------------------------------------

  /** A match, as a half-open byte range. */
  datatype Span = Span(lo: nat, hi: nat)

  /** What `regexp.FindAllIndex` promises: in bounds, left to right, not overlapping. */
  predicate SpansOk(spans: seq<Span>, n: nat) {
    && (forall i :: 0 <= i < |spans| ==> spans[i].lo <= spans[i].hi <= n)
    && (forall i, j :: 0 <= i < j < |spans| ==> spans[i].hi <= spans[j].lo)
  }

  /** All matches of a compiled pattern in a text. */
  type Finder = f: Bytes -> seq<Span> | forall c :: SpansOk(f(c), |c|)
    witness (c: Bytes) => []

  datatype CompiledRule = CompiledRule(name: Bytes, find: Finder)

  type Upper = Bytes -> Bytes

  const MAX_MATCHES_PER_RULE := 1000

  /** `FindAllIndex(content, maxMatchesPerRule)`. */
  function Matches(content: Bytes, rule: CompiledRule): (spans: seq<Span>)
    ensures SpansOk(spans, |content|) && |spans| <= MAX_MATCHES_PER_RULE
  {
    var all := rule.find(content);
    if |all| <= MAX_MATCHES_PER_RULE then all else all[..MAX_MATCHES_PER_RULE]
  }

  const DEFAULT_RULE_NAME: Bytes := [114, 117, 108, 101]  // "rule"

  function RuleName(name: Bytes): Bytes {
    if name == [] then DEFAULT_RULE_NAME else name
  }

  /** The name inside a rule's placeholders: spaces become underscores, then upper case. */
  function Label(upper: Upper, name: Bytes): Bytes {
    upper(ReplaceAll(RuleName(name), [SPACE], [UNDERSCORE]))
  }

  lemma {:induction false} SpacesReplaced(name: Bytes)
    ensures var t := ReplaceAll(name, [SPACE], [UNDERSCORE]);
            |t| == |name| && forall i :: 0 <= i < |name| ==> t[i] == if name[i] == SPACE then UNDERSCORE else name[i]
  {
    if name == [] {
    } else {
      SpacesReplaced(name[1..]);
      assert name[..1] == [name[0]];
    }
  }

  /** The name inside placeholders is the rule's name, "rule" when it has none, byte by byte with
      underscores for spaces, in upper case. */
  lemma LabelExactly(upper: Upper, name: Bytes, spaced: Bytes)
    requires var n: Bytes := if name == [] then [114, 117, 108, 101] else name;
             && |spaced| == |n|
             && forall i :: 0 <= i < |n| ==> spaced[i] == if n[i] == 32 then 95 else n[i]
    ensures Label(upper, name) == upper(spaced)
  {
    SpacesReplaced(RuleName(name));
    assert ReplaceAll(RuleName(name), [SPACE], [UNDERSCORE]) == spaced;
  }

  function Slice(content: Bytes, s: Span): Bytes
    requires s.lo <= s.hi <= |content|
  {
    content[s.lo..s.hi]
  }

  /** The distinct texts of the first `n` matches, in order of first appearance. */
  function Originals(content: Bytes, spans: seq<Span>, n: nat): seq<Bytes>
    requires SpansOk(spans, |content|) && n <= |spans|
  {
    if n == 0 then []
    else
      var os := Originals(content, spans, n - 1);
      var o := Slice(content, spans[n - 1]);
      if o in os then os else os + [o]
  }

  function IndexIn(x: Bytes, xs: seq<Bytes>): (i: nat)
    requires x in xs
    ensures i < |xs| && xs[i] == x && x !in xs[..i]
  {
    if xs[0] == x then 0 else 1 + IndexIn(x, xs[1..])
  }

  function PrevEnd(spans: seq<Span>, n: nat): nat
    requires n <= |spans|
  {
    if n == 0 then 0 else spans[n - 1].hi
  }

  /** `labels` has a placeholder for every match. */
  ghost predicate Labelled(content: Bytes, spans: seq<Span>, labels: map<Bytes, Bytes>)
    requires SpansOk(spans, |content|)
  {
    forall i :: 0 <= i < |spans| ==> Slice(content, spans[i]) in labels
  }

  /** The text up to the end of the `n`-th span with every span replaced by its label. */
  ghost function Rewritten(content: Bytes, spans: seq<Span>, labels: map<Bytes, Bytes>, n: nat): Bytes
    requires SpansOk(spans, |content|) && n <= |spans| && Labelled(content, spans, labels)
  {
    if n == 0 then []
    else
      Rewritten(content, spans, labels, n - 1)
        + content[PrevEnd(spans, n - 1)..spans[n - 1].lo]
        + labels[Slice(content, spans[n - 1])]
  }

  /** The `i`-th distinct original is labelled `[NAME_i]`, counting from one. */
  function Labels(tag: Bytes, os: seq<Bytes>): (labels: map<Bytes, Bytes>)
    ensures labels.Keys == set o | o in os
  {
    map o | o in os :: Placeholder(tag, IndexIn(o, os) + 1)
  }

  function EntriesFor(maskType: Bytes, os: seq<Bytes>, labels: map<Bytes, Bytes>): (es: seq<MaskEntry>)
    requires forall o :: o in os ==> o in labels
    ensures |es| == |os|
  {
    seq(|os|, i requires 0 <= i < |os| => MaskEntry(maskType, os[i], labels[os[i]]))
  }

  /** `Originals` lists every matched text. */
  lemma {:induction false} OriginalsCover(content: Bytes, spans: seq<Span>, n: nat)
    requires SpansOk(spans, |content|) && n <= |spans|
    ensures forall i :: 0 <= i < n ==> Slice(content, spans[i]) in Originals(content, spans, n)
  {
    if n == 0 {
    } else {
      OriginalsCover(content, spans, n - 1);
    }
  }

  /** `Originals` lists nothing but matched texts, each once. */
  lemma {:induction false} OriginalsExact(content: Bytes, spans: seq<Span>, n: nat)
    requires SpansOk(spans, |content|) && n <= |spans|
    ensures forall i, j :: 0 <= i < j < |Originals(content, spans, n)| ==>
              Originals(content, spans, n)[i] != Originals(content, spans, n)[j]
    ensures forall o :: o in Originals(content, spans, n) ==>
              exists i :: 0 <= i < n && o == Slice(content, spans[i])
  {
    if n == 0 {
    } else {
      OriginalsExact(content, spans, n - 1);
      forall o | o in Originals(content, spans, n) ensures exists i :: 0 <= i < n && o == Slice(content, spans[i]) {
        if o !in Originals(content, spans, n - 1) {
          assert o == Slice(content, spans[n - 1]);
        }
      }
    }
  }

  /** What one rule does to a text, given its matches and the name in its placeholders. */
  ghost function MaskMatches(content: Bytes, spans: seq<Span>, maskType: Bytes, tag: Bytes): MaskResult
    requires SpansOk(spans, |content|)
  {
    OriginalsCover(content, spans, |spans|);
    var os := Originals(content, spans, |spans|);
    var labels := Labels(tag, os);
    MaskResult(Rewritten(content, spans, labels, |spans|) + content[PrevEnd(spans, |spans|)..],
               EntriesFor(maskType, os, labels))
  }

  ghost function MaskRule(content: Bytes, rule: CompiledRule, upper: Upper): MaskResult {
    MaskMatches(content, Matches(content, rule), RuleName(rule.name), Label(upper, rule.name))
  }

  /** What a list of rules does: each rule sees the output of the one before. */
  ghost function Masked(content: Bytes, rules: seq<CompiledRule>, upper: Upper): MaskResult {
    if rules == [] then MaskResult(content, [])
    else
      var n := |rules| - 1;
      var before := Masked(content, rules[..n], upper);
      var after := MaskRule(before.content, rules[n], upper);
      MaskResult(after.content, before.entries + after.entries)
  }

  lemma {:induction false} OriginalsGrow(content: Bytes, spans: seq<Span>, i: nat, n: nat)
    requires SpansOk(spans, |content|) && i <= n <= |spans|
    ensures Originals(content, spans, i) <= Originals(content, spans, n)
    decreases n - i
  {
    if i < n {
      OriginalsGrow(content, spans, i, n - 1);
    }
  }

  lemma {:induction false} IndexStable(x: Bytes, xs: seq<Bytes>, ys: seq<Bytes>)
    requires x in xs && xs <= ys
    ensures x in ys && IndexIn(x, ys) == IndexIn(x, xs)
  {
  }

  lemma NewIndex(x: Bytes, xs: seq<Bytes>, ys: seq<Bytes>)
    requires x !in xs && xs + [x] <= ys
    ensures x in ys && IndexIn(x, ys) == |xs|
  {
    IndexStable(x, xs + [x], ys);
  }

  /** The number a match gets is fixed when its text first appears. */
  lemma MatchNumber(content: Bytes, spans: seq<Span>, i: nat, os: seq<Bytes>)
    requires SpansOk(spans, |content|) && i < |spans| && os == Originals(content, spans, |spans|)
    ensures var now, o := Originals(content, spans, i), Slice(content, spans[i]);
            && o in os && IndexIn(o, os) == (if o in now then IndexIn(o, now) else |now|)
            && Originals(content, spans, i + 1) == (if o in now then now else now + [o])
  {
    var now, o := Originals(content, spans, i), Slice(content, spans[i]);
    OriginalsGrow(content, spans, i + 1, |spans|);
    if o in now {
      OriginalsGrow(content, spans, i, |spans|);
      IndexStable(o, now, os);
    } else {
      NewIndex(o, now, os);
    }
  }

  /** The `seen` map holds the placeholder of every original met so far. */
  ghost predicate SeenOk(seen: map<Bytes, Bytes>, now: seq<Bytes>, labels: map<Bytes, Bytes>) {
    && (forall o :: o in seen <==> o in now)
    && (forall o :: o in seen ==> o in labels && seen[o] == labels[o])
  }

  lemma SeenStep(seen: map<Bytes, Bytes>, now: seq<Bytes>, labels: map<Bytes, Bytes>, o: Bytes)
    requires SeenOk(seen, now, labels) && o in labels
    ensures SeenOk(seen[o := labels[o]], now + [o], labels)
  {
  }

  lemma EntriesForStep(maskType: Bytes, os: seq<Bytes>, labels: map<Bytes, Bytes>, o: Bytes)
    requires o in labels && forall x :: x in os ==> x in labels
    ensures EntriesFor(maskType, os + [o], labels)
            == EntriesFor(maskType, os, labels) + [MaskEntry(maskType, o, labels[o])]
  {
  }

  /** The loop variables of `applyRegexMask` after the originals `now`. */
  ghost predicate Numbered(seen: map<Bytes, Bytes>, entries: seq<MaskEntry>, counter: nat, maskType: Bytes,
                           now: seq<Bytes>, labels: map<Bytes, Bytes>)
  {
    && counter == |now| && SeenOk(seen, now, labels)
    && (forall o :: o in now ==> o in labels)
    && entries == EntriesFor(maskType, now, labels)
  }

  /** The deduplication step: the same original gets the same placeholder, a new one
      gets the next number and an entry. */
  method Number(seen: map<Bytes, Bytes>, entries: seq<MaskEntry>, counter: nat, maskType: Bytes, tag: Bytes,
                original: Bytes, ghost now: seq<Bytes>, ghost labels: map<Bytes, Bytes>)
    returns (masked: Bytes, seen': map<Bytes, Bytes>, entries': seq<MaskEntry>, counter': nat)
    requires Numbered(seen, entries, counter, maskType, now, labels)
    requires original in labels && (original !in now ==> labels[original] == Placeholder(tag, |now| + 1))
    ensures masked == labels[original]
    ensures Numbered(seen', entries', counter', maskType, if original in now then now else now + [original], labels)
  {
    seen', entries', counter' := seen, entries, counter;
    if original in seen {
      masked := seen[original];
    } else {
      EntriesForStep(maskType, now, labels, original);
      SeenStep(seen, now, labels, original);
      counter' := counter + 1;
      masked := Placeholder(tag, counter');
      seen' := seen[original := masked];
      entries' := entries + [MaskEntry(maskType, original, masked)];
    }
  }

  /** The state of the loop over the matches, after `i` of them. */
  ghost predicate Progress(content: Bytes, matches: seq<Span>, labels: map<Bytes, Bytes>, maskType: Bytes, i: nat,
                           seen: map<Bytes, Bytes>, entries: seq<MaskEntry>, counter: nat, result: Bytes, prev: nat)
    requires SpansOk(matches, |content|) && i <= |matches| && Labelled(content, matches, labels)
  {
    && Numbered(seen, entries, counter, maskType, Originals(content, matches, i), labels)
    && result == Rewritten(content, matches, labels, i) && prev == PrevEnd(matches, i)
  }

  lemma ProgressStart(content: Bytes, matches: seq<Span>, labels: map<Bytes, Bytes>, maskType: Bytes)
    requires SpansOk(matches, |content|) && Labelled(content, matches, labels)
    ensures Progress(content, matches, labels, maskType, 0, map[], [], 0, [], 0)
  {
  }

  lemma {:induction false} ProgressStep(content: Bytes, matches: seq<Span>, labels: map<Bytes, Bytes>,
                                        maskType: Bytes, tag: Bytes, i: nat,
                     seen: map<Bytes, Bytes>, entries: seq<MaskEntry>, counter: nat, result: Bytes, prev: nat)
    requires SpansOk(matches, |content|) && i < |matches| && Labelled(content, matches, labels)
    requires labels == Labels(tag, Originals(content, matches, |matches|))
    requires Progress(content, matches, labels, maskType, i, seen, entries, counter, result, prev)
    ensures var now, o := Originals(content, matches, i), Slice(content, matches[i]);
            && o in labels && (o !in now ==> labels[o] == Placeholder(tag, |now| + 1))
            && Originals(content, matches, i + 1) == (if o in now then now else now + [o])
            && prev <= matches[i].lo
            && Rewritten(content, matches, labels, i + 1) == result + content[prev..matches[i].lo] + labels[o]
  {
    hide Numbered, Placeholder;
    MatchNumber(content, matches, i, Originals(content, matches, |matches|));
  }

  ghost predicate OriginalsLabelled(content: Bytes, matches: seq<Span>, labels: map<Bytes, Bytes>)
    requires SpansOk(matches, |content|)
  {
    forall o :: o in Originals(content, matches, |matches|) ==> o in labels
  }

  lemma ProgressEnd(content: Bytes, matches: seq<Span>, labels: map<Bytes, Bytes>, maskType: Bytes,
                    seen: map<Bytes, Bytes>, entries: seq<MaskEntry>, counter: nat, result: Bytes, prev: nat)
    requires SpansOk(matches, |content|) && Labelled(content, matches, labels)
    requires Progress(content, matches, labels, maskType, |matches|, seen, entries, counter, result, prev)
    ensures OriginalsLabelled(content, matches, labels)
    ensures entries == EntriesFor(maskType, Originals(content, matches, |matches|), labels)
  {
  }

  lemma NoMatches(content: Bytes, maskType: Bytes, tag: Bytes)
    ensures MaskMatches(content, [], maskType, tag) == MaskResult(content, [])
  {
  }

  method RewriteMatches(content: Bytes, matches: seq<Span>, ruleName: Bytes, placeholder: Bytes,
                        ghost labels: map<Bytes, Bytes>)
    returns (result: Bytes, entries: seq<MaskEntry>)
    requires SpansOk(matches, |content|) && Labelled(content, matches, labels)
    requires labels == Labels(placeholder, Originals(content, matches, |matches|))
    ensures result == Rewritten(content, matches, labels, |matches|) + content[PrevEnd(matches, |matches|)..]
    ensures OriginalsLabelled(content, matches, labels)
    ensures entries == EntriesFor(ruleName, Originals(content, matches, |matches|), labels)
  {
    hide Originals, IndexIn, Rewritten, Placeholder, Numbered, Labels;
    var seen: map<Bytes, Bytes> := map[];
    var counter: nat, prev: nat := 0, 0;
    entries, result := [], [];
    ProgressStart(content, matches, labels, ruleName);
    for i := 0 to |matches|
      invariant Progress(content, matches, labels, ruleName, i, seen, entries, counter, result, prev)
    {
      ProgressStep(content, matches, labels, ruleName, placeholder, i, seen, entries, counter, result, prev);
      var loc := matches[i];
      var original := content[loc.lo..loc.hi];
      var masked;
      masked, seen, entries, counter :=
        Number(seen, entries, counter, ruleName, placeholder, original, Originals(content, matches, i), labels);
      result := result + content[prev..loc.lo] + masked;
      prev := loc.hi;
    }
    ProgressEnd(content, matches, labels, ruleName, seen, entries, counter, result, prev);
    result := result + content[prev..];
  }

  /** `applyRegexMask`: one pass over the matches, numbering originals as they first appear. */
  method ApplyRegexMask(content: Bytes, rule: CompiledRule, upper: Upper)
    returns (result: Bytes, entries: seq<MaskEntry>)
    ensures MaskResult(result, entries) == MaskRule(content, rule, upper)
  {
    var matches := Matches(content, rule);
    hide Originals, Rewritten, Labels, Matches, Label;
    var tag := Label(upper, rule.name);
    if |matches| == 0 {
      NoMatches(content, RuleName(rule.name), tag);
      return content, [];
    }
    OriginalsCover(content, matches, |matches|);
    ghost var os := Originals(content, matches, |matches|);
    result, entries := RewriteMatches(content, matches, RuleName(rule.name), tag, Labels(tag, os));
  }

  datatype MaskMode = Unset | Off | LlmOnly | LlmStorage | Unknown(text: Bytes)

  /** A rule as configured; `regexp.Compile` either rejects its pattern or yields a finder. */
  datatype MaskingRule = MaskingRule(name: Bytes, pattern: Bytes, builtin: bool)

  datatype CompileResult = Rejected | Compiled(find: Finder)

  type Compiler = Bytes -> CompileResult

  /** The rules that survive compilation, in configuration order. */
  function Compilable(rules: seq<MaskingRule>, compiler: Compiler): seq<CompiledRule> {
    if rules == [] then []
    else
      var n := |rules| - 1;
      var before := Compilable(rules[..n], compiler);
      var r := rules[n];
      if r.pattern != [] && compiler(r.pattern).Compiled?
      then before + [CompiledRule(r.name, compiler(r.pattern).find)]
      else before
  }

  predicate Compiles(r: MaskingRule, compiler: Compiler) {
    r.pattern != [] && compiler(r.pattern) != Rejected
  }

  /** `places` are, in order, the places of the rules whose pattern is not empty and compiles. */
  ghost predicate PlacesOfCompiled(rules: seq<MaskingRule>, compiler: Compiler, places: seq<nat>) {
    && (forall k :: 0 <= k < |places| ==> places[k] < |rules|)
    && (forall k, l :: 0 <= k < l < |places| ==> places[k] < places[l])
    && (forall i :: 0 <= i < |rules| ==> (i in places <==> Compiles(rules[i], compiler)))
  }

  /** The compiled rule has the name of the configured one and the finder of its pattern. */
  ghost predicate CompiledRuleOf(c: CompiledRule, r: MaskingRule, compiler: Compiler) {
    c.name == r.name && compiler(r.pattern) == Compiled(c.find)
  }

  ghost predicate CompiledAt(compiled: seq<CompiledRule>, rules: seq<MaskingRule>, compiler: Compiler,
                             places: seq<nat>) {
    && |compiled| == |places|
    && forall k :: 0 <= k < |places| ==> places[k] < |rules| && CompiledRuleOf(compiled[k], rules[places[k]], compiler)
  }

  /** Exactly the rules with an empty or rejected pattern are left out; the others keep their order,
      their names and the finders of their patterns. */
  lemma {:induction false} CompilesExactly(rules: seq<MaskingRule>, compiler: Compiler) returns (places: seq<nat>)
    ensures PlacesOfCompiled(rules, compiler, places)
    ensures CompiledAt(Compilable(rules, compiler), rules, compiler, places)
  {
    if rules == [] {
      return [];
    }
    var n := |rules| - 1;
    places := CompilesExactly(rules[..n], compiler);
    hide PlacesOfCompiled, CompiledAt;
    PlacesGrow(rules, compiler, places);
    CompiledGrow(Compilable(rules[..n], compiler), rules, compiler, places);
    if Compiles(rules[n], compiler) {
      places := places + [n];
    }
  }

  lemma CompiledGrow(compiled: seq<CompiledRule>, rules: seq<MaskingRule>, compiler: Compiler, places: seq<nat>)
    requires rules != [] && CompiledAt(compiled, rules[..|rules| - 1], compiler, places)
    ensures CompiledAt(compiled, rules, compiler, places)
    ensures var n := |rules| - 1;
            Compiles(rules[n], compiler) ==>
              CompiledAt(compiled + [CompiledRule(rules[n].name, compiler(rules[n].pattern).find)], rules, compiler,
                  places + [n])
  {
    var n := |rules| - 1;
    if Compiles(rules[n], compiler) {
      assert CompiledRuleOf(CompiledRule(rules[n].name, compiler(rules[n].pattern).find), rules[n], compiler);
    }
    hide CompiledRuleOf, Compiles;
    assert forall k :: 0 <= k < |places| ==> rules[..n][places[k]] == rules[places[k]];
  }

  /** One more rule: its own place decides, the others stay. */
  lemma PlacesGrow(rules: seq<MaskingRule>, compiler: Compiler, places: seq<nat>)
    requires rules != [] && PlacesOfCompiled(rules[..|rules| - 1], compiler, places)
    ensures var n := |rules| - 1;
            PlacesOfCompiled(rules, compiler, if Compiles(rules[n], compiler) then places + [n] else places)
    ensures forall k :: 0 <= k < |places| ==> places[k] < |rules| - 1
  {
    hide Compiles;
    var n := |rules| - 1;
    if Compiles(rules[n], compiler) {
      forall i | 0 <= i < |rules| ensures i in places + [n] <==> Compiles(rules[i], compiler) {
        if i < n { assert rules[..n][i] == rules[i]; }
      }
    } else {
      forall i | 0 <= i < |rules| ensures i in places <==> Compiles(rules[i], compiler) {
        if i < n { assert rules[..n][i] == rules[i]; }
      }
    }
  }

  class MaskingConfig {
    var mode: MaskMode
    var rules: seq<MaskingRule>
    var compiled: seq<CompiledRule>

    constructor (mode: MaskMode, rules: seq<MaskingRule>)
      ensures this.mode == mode && this.rules == rules && this.compiled == []
    {
      this.mode := mode;
      this.rules := rules;
      this.compiled := [];
    }

    /** Rebuilds `compiled` from scratch; empty and invalid patterns are skipped. */
    method Compile(compiler: Compiler)
      modifies this`compiled
      ensures compiled == Compilable(rules, compiler)
      ensures exists places: seq<nat> ::
                PlacesOfCompiled(rules, compiler, places) && CompiledAt(compiled, rules, compiler, places)
    {
      compiled := [];
      for i := 0 to |rules|
        invariant compiled == Compilable(rules[..i], compiler)
      {
        var rule := rules[i];
        assert rules[..i + 1][..i] == rules[..i];
        if rule.pattern == [] {
          continue;
        }
        match compiler(rule.pattern)
        case Rejected =>
        case Compiled(find) =>
          compiled := compiled + [CompiledRule(rule.name, find)];
      }
      assert rules[..|rules|] == rules;
      ghost var places := CompilesExactly(rules, compiler);
    }
  }

  /** `ApplyMasking`: nothing to do leaves the content alone; otherwise every compiled
      rule runs on the output of the one before it. */
  method ApplyMasking(content: Bytes, config: MaskingConfig, upper: Upper) returns (r: MaskResult)
    ensures r == if content == [] || config.mode == Off || config.mode == Unset then MaskResult(content, [])
                 else Masked(content, config.compiled, upper)
  {
    if |content| == 0 || config.mode == Off || config.mode == Unset {
      return MaskResult(content, []);
    }
    if |config.compiled| == 0 {
      return MaskResult(content, []);
    }
    r := ApplyRules(content, config.compiled, upper);
  }

  /** The loop over the compiled rules. */
  method ApplyRules(content: Bytes, rules: seq<CompiledRule>, upper: Upper) returns (r: MaskResult)
    ensures r == Masked(content, rules, upper)
  {
    var allEntries: seq<MaskEntry> := [];
    var current := content;
    for i := 0 to |rules|
      invariant MaskResult(current, allEntries) == Masked(content, rules[..i], upper)
    {
      MaskedStep(content, rules, i, upper);
      var masked, entries := ApplyRegexMask(current, rules[i], upper);
      current := masked;
      allEntries := allEntries + entries;
    }
    assert rules[..|rules|] == rules;
    r := MaskResult(current, allEntries);
  }

  lemma {:induction false} MaskedStep(content: Bytes, rules: seq<CompiledRule>, i: nat, upper: Upper)
    requires i < |rules|
    ensures var before := Masked(content, rules[..i], upper);
            var after := MaskRule(before.content, rules[i], upper);
            Masked(content, rules[..i + 1], upper) == MaskResult(after.content, before.entries + after.entries)
  {
    assert rules[..i + 1][..i] == rules[..i];
  }
}
