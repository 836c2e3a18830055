/** The built-in rule `\+7\d{10}` (`PresetPhoneRule`), matched concretely: what the general
    theorems ask for holds of it for every text, and its masking leaks no number. */
module Phone {
  import opened ByteStrings
  import opened Masking
  import opened RoundTrip
  import opened Streaming
  import Decimal

  const PLUS: byte := 43
  const SEVEN: byte := 55
  const LENGTH := 12

  /** The pattern matches at position `i`. */
  predicate PhoneAt(s: Bytes, i: int) {
    && 0 <= i && i + LENGTH <= |s| && s[i] == PLUS && s[i + 1] == SEVEN
    && forall j :: i + 2 <= j < i + LENGTH ==> Decimal.IsDigit(s[j])
  }

  /** All matches from position `from` on, leftmost first, without overlap. */
  function PhoneSpans(s: Bytes, from: nat): (spans: seq<Span>)
    ensures forall k :: 0 <= k < |spans| ==>
              from <= spans[k].lo && PhoneAt(s, spans[k].lo) && spans[k].hi == spans[k].lo + LENGTH
    ensures SpansOk(spans, |s|)
    decreases |s| - from
  {
    if from + LENGTH > |s| then []
    else if PhoneAt(s, from) then [Span(from, from + LENGTH)] + PhoneSpans(s, from + LENGTH)
    else PhoneSpans(s, from + 1)
  }

  lemma PhonesApart(s: Bytes, i: int, j: int)
    requires PhoneAt(s, i) && PhoneAt(s, j) && i < j
    ensures i + LENGTH <= j
  {
  }

  /** Every position where the pattern matches is found. */
  lemma {:induction false} PhoneSpansComplete(s: Bytes, from: nat, i: int)
    requires from <= i && PhoneAt(s, i)
    ensures Span(i, i + LENGTH) in PhoneSpans(s, from)
    decreases |s| - from
  {
    if PhoneAt(s, from) {
      if from < i {
        PhonesApart(s, from, i);
        PhoneSpansComplete(s, from + LENGTH, i);
      }
    } else {
      PhoneSpansComplete(s, from + 1, i);
    }
  }

  function FindPhones(s: Bytes): (spans: seq<Span>)
    ensures SpansOk(spans, |s|)
  {
    PhoneSpans(s, 0)
  }

  function AsciiUpper(s: Bytes): (r: Bytes)
    ensures |r| == |s|
  {
    seq(|s|, i requires 0 <= i < |s| => if 97 <= s[i] <= 122 then s[i] - 32 else s[i])
  }

  const PHONE_NAME: Bytes := [112, 104, 111, 110, 101]
  const PHONE_TAG: Bytes := [80, 72, 79, 78, 69]

  ghost function PhoneRule(): CompiledRule {
    CompiledRule(PHONE_NAME, s => FindPhones(s))
  }

  lemma PhoneLabel()
    ensures Label(AsciiUpper, PHONE_NAME) == PHONE_TAG
  {
    hide ReplaceAll;
    if Infix([SPACE], PHONE_NAME) { FirstByteOfInfix([SPACE], PHONE_NAME); }
    ReplaceAbsent(PHONE_NAME, [SPACE], [UNDERSCORE]);
  }

  /** What the general theorems need of a list of entries. */
  ghost predicate WellSuited(entries: seq<MaskEntry>) {
    && MasksBracketed(entries) && MasksDistinct(entries) && OriginalsPlain(entries)
    && forall i, j :: 0 <= i < |entries| && 0 <= j < |entries| ==> !Infix(entries[i].original, entries[j].masked)
  }

  ghost function PhoneMasked(content: Bytes): MaskResult {
    Masked(content, [PhoneRule()], AsciiUpper)
  }

  lemma PhoneMatches(content: Bytes)
    ensures var all := FindPhones(content);
            Matches(content, PhoneRule()) == if |all| <= MAX_MATCHES_PER_RULE then all else all[..MAX_MATCHES_PER_RULE]
    ensures PhoneRule().name == PHONE_NAME
  {
  }

  lemma OneRule(content: Bytes, rule: CompiledRule, upper: Upper)
    ensures Masked(content, [rule], upper) == MaskRule(content, rule, upper)
    ensures MatchesClear(content, [rule], upper)
    ensures LabelsOk([rule], upper) <==> BracketFree(Label(upper, rule.name))
  {
    hide MaskRule, Matches, Label;
    assert [rule][..0] == [];
    assert Masked(content, [], upper) == MaskResult(content, []);
    var r := MaskRule(content, rule, upper);
    assert [] + r.entries == r.entries;
    assert LabelsOk([], upper) && Tags([], upper) == {} && MatchesClear(content, [], upper);
  }

  /** What the preset's placeholders and matches are. */
  lemma {:induction false} PhoneMaskedIs(content: Bytes)
    ensures PhoneMasked(content) == MaskMatches(content, Matches(content, PhoneRule()), PHONE_NAME, PHONE_TAG)
    ensures LabelsOk([PhoneRule()], AsciiUpper) && MatchesClear(content, [PhoneRule()], AsciiUpper)
  {
    hide MaskMatches, Matches, Label, PhoneRule, Masked, LabelsOk, MatchesClear;
    PhoneMatches(content);
    PhoneLabel();
    OneRule(content, PhoneRule(), AsciiUpper);
    PhoneTagPlain();
  }

  lemma PhoneTagPlain()
    ensures BracketFree(PHONE_TAG)
  {
  }

  /** `+` never occurs in `[PHONE_n]`. */
  lemma NoPlusInPlaceholder(n: nat)
    ensures PLUS !in Placeholder(PHONE_TAG, n)
  {
  }

  lemma PlusKeepsOut(o: Bytes, m: Bytes)
    requires o != [] && o[0] == PLUS && PLUS !in m
    ensures !Infix(o, m)
  {
  }

  /** The text of a match. */
  lemma PhoneText(content: Bytes, s: Span)
    requires PhoneAt(content, s.lo) && s.hi == s.lo + LENGTH
    ensures |Slice(content, s)| == LENGTH && Slice(content, s)[0] == PLUS && BracketFree(Slice(content, s))
  {
  }

  /** The preset meets every condition of the general theorems, for every text. */
  lemma {:induction false} PhoneWellSuited(content: Bytes)
    ensures WellSuited(PhoneMasked(content).entries)
  {
    hide Masked, MaskMatches, PhoneRule, Infix, MasksBracketed, MasksDistinct, BracketFree, LabelsOk, AllTagged;
    PhoneMaskedIs(content);
    EntriesWellFormed(content, [PhoneRule()], AsciiUpper);
    assert PhoneMasked(content) == Masked(content, [PhoneRule()], AsciiUpper);
    hide PhoneEntry, PhoneMasked;
    var es := PhoneMasked(content).entries;
    forall i | 0 <= i < |es| ensures PhoneEntry(es[i]) {
      PhoneEntryAt(content, i);
    }
    PhoneEntriesSuited(es);
  }

  lemma PhoneEntriesSuited(es: seq<MaskEntry>)
    requires MasksBracketed(es) && MasksDistinct(es) && forall i :: 0 <= i < |es| ==> PhoneEntry(es[i])
    ensures WellSuited(es)
  {
    hide MasksBracketed, MasksDistinct, BracketFree, Infix;
    forall i, j | 0 <= i < |es| && 0 <= j < |es| ensures !Infix(es[i].original, es[j].masked) {
      assert PhoneEntry(es[i]) && PhoneEntry(es[j]);
      PlusKeepsOut(es[i].original, es[j].masked);
    }
  }

  ghost predicate PhoneEntry(e: MaskEntry) {
    e.original != [] && e.original[0] == PLUS && BracketFree(e.original) && PLUS !in e.masked
  }

  lemma {:induction false} PhoneEntryAt(content: Bytes, i: int)
    requires 0 <= i < |PhoneMasked(content).entries|
    ensures PhoneEntry(PhoneMasked(content).entries[i])
  {
    hide Masked, MaskMatches, Placeholder, Originals, BracketFree, PhoneRule, Matches, PhoneAt;
    PhoneMaskedIs(content);
    var spans := Matches(content, PhoneRule());
    var os := Originals(content, spans, |spans|);
    RuleEntries(content, spans, PHONE_NAME, PHONE_TAG, i);
    NoPlusInPlaceholder(i + 1);
    OriginalsExact(content, spans, |spans|);
    assert os[i] in os;
    var k :| 0 <= k < |spans| && os[i] == Slice(content, spans[k]);
    PhoneMatch(content, k);
    PhoneText(content, spans[k]);
  }

  lemma {:induction false} PhoneMatch(content: Bytes, k: int)
    requires 0 <= k < |Matches(content, PhoneRule())|
    ensures var s := Matches(content, PhoneRule())[k];
            PhoneAt(content, s.lo) && s.hi == s.lo + LENGTH
  {
    hide Matches, PhoneAt;
    PhoneMatches(content);
  }

  /** The distinct numbers of a request that get a placeholder, in order of first appearance. */
  ghost function MaskedNumbers(content: Bytes): seq<Bytes> {
    var spans := Matches(content, PhoneRule());
    Originals(content, spans, |spans|)
  }

  /** The entries of a request: its masked numbers, numbered from one. */
  lemma {:induction false} PhoneEntries(content: Bytes)
    ensures var es, os := PhoneMasked(content).entries, MaskedNumbers(content);
            && |es| == |os|
            && forall i :: 0 <= i < |es| ==>
                 && es[i].original == os[i] && es[i].masked == Placeholder(PHONE_TAG, i + 1)
                 && es[i].maskType == [112, 104, 111, 110, 101]  // "phone"
  {
    hide Masked, MaskMatches, Placeholder, Originals, PhoneRule, Matches;
    PhoneMaskedIs(content);
    var spans := Matches(content, PhoneRule());
    EntryCount(content, spans, PHONE_NAME, PHONE_TAG);
    forall i | 0 <= i < |PhoneMasked(content).entries|
      ensures var e := PhoneMasked(content).entries[i];
              && e.original == MaskedNumbers(content)[i] && e.masked == Placeholder(PHONE_TAG, i + 1)
              && e.maskType == [112, 104, 111, 110, 101]
    {
      RuleEntries(content, spans, PHONE_NAME, PHONE_TAG, i);
    }
  }

  /** The request contains none of `[PHONE_1]` to `[PHONE_k]`, where k is how many distinct
      numbers of it are masked. */
  ghost predicate NoPlaceholderYet(content: Bytes) {
    forall n :: 1 <= n <= |MaskedNumbers(content)| ==> !Infix(Placeholder(PHONE_TAG, n), content)
  }

  lemma {:induction false} PlaceholdersAbsent(content: Bytes)
    ensures MasksAbsent(PhoneMasked(content).entries, content) <==> NoPlaceholderYet(content)
  {
    hide Masked, Placeholder, PhoneMasked, MaskedNumbers, Infix;
    PhoneEntries(content);
    var es := PhoneMasked(content).entries;
    if MasksAbsent(es, content) {
      forall n | 1 <= n <= |MaskedNumbers(content)| ensures !Infix(Placeholder(PHONE_TAG, n), content) {
        assert es[n - 1].masked == Placeholder(PHONE_TAG, n);
      }
    }
  }

  /** The round trip of the phone preset works exactly when the request does not already
      contain one of the placeholders it is given. */
  lemma {:induction false} PhoneRoundTrip(content: Bytes)
    ensures var r := PhoneMasked(content);
            Unmasked(r.content, r.entries) == content <==> NoPlaceholderYet(content)
  {
    hide Masked, Unmasked, Infix, NoPlaceholderYet, MasksAbsent;
    PhoneMaskedIs(content);
    PhoneWellSuited(content);
    PlaceholdersAbsent(content);
    RoundTripExactly(content, [PhoneRule()], AsciiUpper);
  }

  /** With the phone preset streaming equals unmasking the whole body, always. */
  lemma {:induction false} PhoneStreams(content: Bytes, chunks: seq<Bytes>)
    ensures var es := PhoneMasked(content).entries;
            StreamOutput(chunks, true, es) == Unmasked(Concat(chunks), es)
  {
    hide Masked, StreamOutput, Unmasked, Infix, OriginalsPlain;
    PhoneWellSuited(content);
    var es := PhoneMasked(content).entries;
    assert OriginalsBracketFree(es) by { PlainIsBracketFree(es); }
    StreamsExactly(es);
  }

  lemma PlainIsBracketFree(es: seq<MaskEntry>)
    requires OriginalsPlain(es)
    ensures OriginalsBracketFree(es)
  {
  }

  /** With the phone preset the stored output never holds a number that was masked. */
  lemma {:induction false} PhoneMaskedNotStored(content: Bytes, output: Bytes)
    ensures var es := PhoneMasked(content).entries; OriginalsAbsent(es, Remasked(output, es))
  {
    hide Masked, Remasked, Infix, OriginalsPlain, Bracketed;
    PhoneWellSuited(content);
    NoOriginalStored(output, PhoneMasked(content).entries);
  }

  /** The `k`-th phone number of a request. */
  function NumberAt(content: Bytes, k: nat): Bytes
    requires k < |FindPhones(content)|
  {
    Slice(content, FindPhones(content)[k])
  }

  /** No number of the request is in any stored output. */
  ghost predicate NeverStored(content: Bytes) {
    var es := PhoneMasked(content).entries;
    forall output, k :: 0 <= k < |FindPhones(content)| ==> !Infix(NumberAt(content, k), Remasked(output, es))
  }

  /** `o` is one of the first thousand numbers of the request. */
  ghost predicate IsEarly(content: Bytes, o: Bytes) {
    exists j :: 0 <= j < |FindPhones(content)| && j < MAX_MATCHES_PER_RULE && NumberAt(content, j) == o
  }

  /** Every number of the request is also one of its first thousand. */
  ghost predicate AmongFirst(content: Bytes) {
    forall k :: 0 <= k < |FindPhones(content)| ==> IsEarly(content, NumberAt(content, k))
  }

  /** The masked numbers are the numbers of the first thousand matches. */
  lemma {:induction false} MaskedNumbersAre(content: Bytes, o: Bytes)
    ensures o in MaskedNumbers(content) <==> IsEarly(content, o)
  {
    hide Originals, FindPhones, PhoneRule, Matches;
    PhoneMatches(content);
    var spans, all := Matches(content, PhoneRule()), FindPhones(content);
    OriginalsCover(content, spans, |spans|);
    OriginalsExact(content, spans, |spans|);
    if o in MaskedNumbers(content) {
      var i :| 0 <= i < |spans| && o == Slice(content, spans[i]);
      assert spans[i] == all[i] && NumberAt(content, i) == o;
    }
    if j :| 0 <= j < |all| && j < MAX_MATCHES_PER_RULE && NumberAt(content, j) == o {
      assert spans[j] == all[j];
    }
  }

  /** Every number has the same length, so a different one is not part of it. */
  lemma NumberLength(content: Bytes, k: nat)
    requires k < |FindPhones(content)|
    ensures |NumberAt(content, k)| == LENGTH
  {
  }

  lemma SameLengthInfix(o: Bytes, s: Bytes)
    requires |o| == |s| && Infix(o, s)
    ensures o == s
  {
    var q :| OccursAt(o, s, q);
    assert s[0..|s|] == s;
  }

  lemma {:induction false} RemaskedAbsent(s: Bytes, entries: seq<MaskEntry>)
    requires forall i :: 0 <= i < |entries| ==> entries[i].original != [] && !Infix(entries[i].original, s)
    ensures Remasked(s, entries) == s
    decreases |entries|
  {
    hide Infix;
    if entries == [] {
    } else {
      ReplaceAbsent(s, entries[0].original, entries[0].masked);
      RemaskedAbsent(s, entries[1..]);
    }
  }

  /** A number that is not masked is stored as it is when the provider repeats it. */
  lemma {:induction false} UnmaskedNumberStored(content: Bytes, k: nat)
    requires k < |FindPhones(content)| && NumberAt(content, k) !in MaskedNumbers(content)
    ensures Remasked(NumberAt(content, k), PhoneMasked(content).entries) == NumberAt(content, k)
  {
    hide FindPhones, PhoneMasked, MaskedNumbers, NumberAt, Infix, Placeholder;
    var es, os, o := PhoneMasked(content).entries, MaskedNumbers(content), NumberAt(content, k);
    PhoneEntries(content);
    NumberLength(content, k);
    forall i | 0 <= i < |es| ensures es[i].original != [] && !Infix(es[i].original, o) {
      assert os[i] in os;
      MaskedNumbersAre(content, os[i]);
      var j :| 0 <= j < |FindPhones(content)| && j < MAX_MATCHES_PER_RULE && NumberAt(content, j) == os[i];
      NumberLength(content, j);
      if Infix(os[i], o) { SameLengthInfix(os[i], o); }
    }
    RemaskedAbsent(o, es);
  }

  lemma InfixOfSelf(s: Bytes)
    ensures Infix(s, s)
  {
    assert s[0..|s|] == s;
    assert OccursAt(s, s, 0);
  }

  /** No number of a request is ever stored, whatever the provider answers, if and only if every
      number of it is among the first thousand matches. */
  lemma {:induction false} PhoneStoredExactly(content: Bytes)
    ensures NeverStored(content) <==> AmongFirst(content)
  {
    hide FindPhones, PhoneMasked, MaskedNumbers, NumberAt, Infix, Remasked;
    var es, all := PhoneMasked(content).entries, FindPhones(content);
    if AmongFirst(content) {
      forall output, k | 0 <= k < |all| ensures !Infix(NumberAt(content, k), Remasked(output, es)) {
        MaskedNumbersAre(content, NumberAt(content, k));
        PhoneEntries(content);
        var i :| 0 <= i < |MaskedNumbers(content)| && MaskedNumbers(content)[i] == NumberAt(content, k);
        PhoneMaskedNotStored(content, output);
        assert es[i].original == NumberAt(content, k);
      }
    } else {
      var k :| 0 <= k < |all| && !IsEarly(content, NumberAt(content, k));
      MaskedNumbersAre(content, NumberAt(content, k));
      UnmaskedNumberStored(content, k);
      InfixOfSelf(NumberAt(content, k));
      assert Infix(NumberAt(content, k), Remasked(NumberAt(content, k), es));
    }
  }

  /** So none is for a request with at most a thousand. */
  lemma {:induction false} PhoneNeverStored(content: Bytes)
    requires |FindPhones(content)| <= MAX_MATCHES_PER_RULE
    ensures NeverStored(content)
  {
    hide FindPhones, NumberAt;
    PhoneStoredExactly(content);
    hide NeverStored;
    forall k | 0 <= k < |FindPhones(content)| ensures IsEarly(content, NumberAt(content, k)) {
      assert NumberAt(content, k) == NumberAt(content, k);
    }
    assert AmongFirst(content);
  }

  // ---------------------------------------------------------------------
  // Nothing slips through, up to the cap
  // ---------------------------------------------------------------------

  /** A placeholder cannot be part of a phone number, nor contain one. */
  lemma PhoneAvoidsPlaceholder(s: Bytes, q: int, at: nat, m: Bytes)
    requires PhoneAt(s, q) && Bracketed(m) && PLUS !in m && at + |m| <= |s| && s[at..at + |m|] == m
    ensures q + LENGTH <= at || at + |m| <= q
  {
  }

  lemma PhoneInPart(s: Bytes, t: Bytes, q: int, d: int)
    requires PhoneAt(s, q) && 0 <= q + d && q + d + LENGTH <= |t|
    requires forall j :: q <= j < q + LENGTH ==> s[j] == t[j + d]
    ensures PhoneAt(t, q + d)
  {
    forall j | q + d + 2 <= j < q + d + LENGTH ensures Decimal.IsDigit(t[j]) {
      assert s[j - d] == t[j];
    }
  }

  ghost predicate NotAmong(p: int, spans: seq<Span>, n: nat) {
    forall k :: 0 <= k < n <= |spans| ==> p != spans[k].lo
  }

  /** A number left in the rewritten part was in the request and was not matched. */
  lemma {:induction false} LeftInRewritten(content: Bytes, spans: seq<Span>, labels: map<Bytes, Bytes>, n: nat, q: int)
    requires SpansOk(spans, |content|) && n <= |spans| && Labelled(content, spans, labels) && PlusFreeLabels(labels)
    requires forall k :: 0 <= k < |spans| ==> spans[k].hi == spans[k].lo + LENGTH
    requires PhoneAt(Rewritten(content, spans, labels, n), q)
    ensures exists p :: PhoneAt(content, p) && p + LENGTH <= PrevEnd(spans, n) && NotAmong(p, spans, n)
    decreases n
  {
    hide PhoneAt, PlusFreeLabels;
    var r := Rewritten(content, spans, labels, n);
    assert n > 0 by { PhoneNotIn([], q); }
    hide Rewritten;
    var before := Rewritten(content, spans, labels, n - 1);
    var at, s := PrevEnd(spans, n - 1), spans[n - 1];
    var seg, m := content[at..s.lo], labels[Slice(content, s)];
    RewrittenParts(content, spans, labels, n);
    LabelIsBracketed(labels, Slice(content, s));
    PhoneAvoidsPlaceholder(r, q, |before + seg|, m);
    PhoneLength(r, q);
    NotAcross(content, spans, labels, n - 1, r, q);
    if q + LENGTH <= |before| {
      PhoneInPart(r, before, q, 0);
      LeftInRewritten(content, spans, labels, n - 1, q);
      var p :| PhoneAt(content, p) && p + LENGTH <= PrevEnd(spans, n - 1) && NotAmong(p, spans, n - 1);
      assert NotAmong(p, spans, n);
    } else {
      InSegment(content, before, at, s.lo, m, q);
      NotAmongAfter(q + (at - |before|), content, spans, n);
    }
  }

  lemma InSegment(content: Bytes, before: Bytes, at: nat, lo: nat, m: Bytes, q: int)
    requires at <= lo <= |content| && PhoneAt(before + content[at..lo] + m, q)
    requires |before| <= q && q + LENGTH <= |before| + (lo - at)
    ensures PhoneAt(content, q + (at - |before|))
  {
    hide PhoneAt;
    PhoneInPart(before + content[at..lo] + m, content, q, at - |before|);
  }

  lemma NotAmongAfter(p: int, content: Bytes, spans: seq<Span>, n: nat)
    requires SpansOk(spans, |content|) && 0 < n <= |spans|
    requires PrevEnd(spans, n - 1) <= p && p + LENGTH <= spans[n - 1].lo
    requires forall k :: 0 <= k < |spans| ==> spans[k].hi == spans[k].lo + LENGTH
    ensures NotAmong(p, spans, n)
  {
  }

  lemma PhoneNotIn(s: Bytes, q: int)
    ensures |s| < LENGTH ==> !PhoneAt(s, q)
  {
  }

  lemma PhoneLength(s: Bytes, q: int)
    requires PhoneAt(s, q)
    ensures 0 <= q && q + LENGTH <= |s|
  {
  }

  lemma RewrittenParts(content: Bytes, spans: seq<Span>, labels: map<Bytes, Bytes>, n: nat)
    requires SpansOk(spans, |content|) && 0 < n <= |spans| && Labelled(content, spans, labels)
    ensures var before, m := Rewritten(content, spans, labels, n - 1), labels[Slice(content, spans[n - 1])];
            var seg, r := content[PrevEnd(spans, n - 1)..spans[n - 1].lo], Rewritten(content, spans, labels, n);
            r == before + seg + m && r[|before + seg|..|before + seg| + |m|] == m && before <= r
  {
  }

  ghost predicate PlusFreeLabels(labels: map<Bytes, Bytes>) {
    forall o :: o in labels ==> Bracketed(labels[o]) && PLUS !in labels[o]
  }

  lemma LabelIsBracketed(labels: map<Bytes, Bytes>, o: Bytes)
    requires PlusFreeLabels(labels) && o in labels
    ensures Bracketed(labels[o]) && PLUS !in labels[o] && |labels[o]| >= 2
  {
  }

  /** A number does not straddle the end of the rewritten part, which ends in a placeholder. */
  lemma NotAcross(content: Bytes, spans: seq<Span>, labels: map<Bytes, Bytes>, n: nat, t: Bytes, q: int)
    requires SpansOk(spans, |content|) && n <= |spans| && Labelled(content, spans, labels)
    requires PlusFreeLabels(labels)
    requires Rewritten(content, spans, labels, n) <= t && PhoneAt(t, q)
    ensures q + LENGTH <= |Rewritten(content, spans, labels, n)| || |Rewritten(content, spans, labels, n)| <= q
  {
    if n > 0 {
      hide PhoneAt, PlusFreeLabels, Bracketed;
      var r := Rewritten(content, spans, labels, n);
      var m := labels[Slice(content, spans[n - 1])];
      RewrittenParts(content, spans, labels, n);
      var k := |r| - |m|;
      assert t[k..k + |m|] == r[k..k + |m|] == m;
      LabelIsBracketed(labels, Slice(content, spans[n - 1]));
      PhoneAvoidsPlaceholder(t, q, k, m);
    }
  }

  /** The masked text contains a phone number exactly when the request had more than
      `maxMatchesPerRule` of them. */
  lemma {:induction false} PhoneMaskedLeaks(content: Bytes)
    ensures (exists q :: PhoneAt(PhoneMasked(content).content, q)) <==> |FindPhones(content)| > MAX_MATCHES_PER_RULE
  {
    hide Masked, Placeholder, Originals, Labels, Rewritten, PhoneRule, Matches, PhoneAt, PlusFreeLabels, SpansOk;
    PhoneMaskedIs(content);
    PhoneMatches(content);
    var spans := Matches(content, PhoneRule());
    OriginalsCover(content, spans, |spans|);
    var labels := Labels(PHONE_TAG, Originals(content, spans, |spans|));
    PhoneLabels(Originals(content, spans, |spans|));
    PrevEndBound(content, spans);
    var r, at := Rewritten(content, spans, labels, |spans|), PrevEnd(spans, |spans|);
    var t := r + content[at..];
    assert t == PhoneMasked(content).content;
    if |FindPhones(content)| > MAX_MATCHES_PER_RULE {
      SecondThousand(content, spans, r);
    } else if q :| PhoneAt(t, q) {
      var p := LeftOver(content, spans, labels, q);
      PhoneSpansComplete(content, 0, p);
    }
  }

  lemma SecondThousand(content: Bytes, spans: seq<Span>, r: Bytes)
    requires |FindPhones(content)| > MAX_MATCHES_PER_RULE && spans == FindPhones(content)[..MAX_MATCHES_PER_RULE]
    requires PrevEnd(spans, |spans|) <= |content|
    ensures exists q :: PhoneAt(r + content[PrevEnd(spans, |spans|)..], q)
  {
    hide PhoneAt, FindPhones;
    var p, at := FindPhones(content)[MAX_MATCHES_PER_RULE].lo, PrevEnd(spans, |spans|);
    NextPhone(content, spans);
    PhoneLength(content, p);
    PhoneInPart(content, r + content[at..], p, |r| - at);
  }

  lemma PrevEndBound(content: Bytes, spans: seq<Span>)
    requires SpansOk(spans, |content|)
    ensures PrevEnd(spans, |spans|) <= |content|
  {
  }

  lemma NextPhone(content: Bytes, spans: seq<Span>)
    requires |FindPhones(content)| > MAX_MATCHES_PER_RULE && spans == FindPhones(content)[..MAX_MATCHES_PER_RULE]
    ensures PhoneAt(content, FindPhones(content)[MAX_MATCHES_PER_RULE].lo)
    ensures PrevEnd(spans, |spans|) <= FindPhones(content)[MAX_MATCHES_PER_RULE].lo
  {
  }

  /** A number anywhere in the masked text was in the request and was not matched. */
  lemma {:induction false} LeftOver(content: Bytes, spans: seq<Span>, labels: map<Bytes, Bytes>, q: int)
    returns (p: int)
    requires SpansOk(spans, |content|) && Labelled(content, spans, labels) && PlusFreeLabels(labels)
    requires forall k :: 0 <= k < |spans| ==> spans[k].hi == spans[k].lo + LENGTH
    requires PhoneAt(Rewritten(content, spans, labels, |spans|) + content[PrevEnd(spans, |spans|)..], q)
    ensures 0 <= p && PhoneAt(content, p) && Span(p, p + LENGTH) !in spans
  {
    hide PhoneAt, Rewritten, PlusFreeLabels;
    var r, at := Rewritten(content, spans, labels, |spans|), PrevEnd(spans, |spans|);
    var t := r + content[at..];
    NotAcross(content, spans, labels, |spans|, t, q);
    PhoneLength(t, q);
    if q + LENGTH <= |r| {
      PhoneInPart(t, r, q, 0);
      LeftInRewritten(content, spans, labels, |spans|, q);
      p :| PhoneAt(content, p) && p + LENGTH <= at && NotAmong(p, spans, |spans|);
      PhoneLength(content, p);
    } else {
      p := q + (at - |r|);
      PhoneInPart(t, content, q, at - |r|);
    }
  }

  lemma PhoneLabels(os: seq<Bytes>)
    ensures PlusFreeLabels(Labels(PHONE_TAG, os))
  {
    hide Placeholder, Bracketed;
    var labels := Labels(PHONE_TAG, os);
    forall o | o in labels ensures Bracketed(labels[o]) && PLUS !in labels[o] {
      PlaceholderIsBracketed(PHONE_TAG, IndexIn(o, os) + 1);
      NoPlusInPlaceholder(IndexIn(o, os) + 1);
    }
  }
}
