/** Requests and streams on which masking, unmasking or streaming does less than it is meant to.

    Each is one input; the conditions they miss are stated exactly in `RoundTrip`, `NestedMasks`,
    `Streaming` and `Phone`. */
module FailingInputs {
  import opened ByteStrings
  import opened Masking
  import opened RoundTrip
  import opened NestedMasks
  import opened Streaming
  import opened Phone
  import Decimal

  // ---------------------------------------------------------------------
  // Phone numbers
  // ---------------------------------------------------------------------

  function Power(w: nat): nat {
    if w == 0 then 1 else 10 * Power(w - 1)
  }

  /** The last `w` decimal digits of `i`. */
  function Digits(i: nat, w: nat): (s: Bytes)
    ensures |s| == w && Decimal.AllDigits(s)
  {
    if w == 0 then [] else Digits(i / 10, w - 1) + [Decimal.ZERO + (i % 10) as byte]
  }

  lemma {:induction false} DigitsInjective(i: nat, j: nat, w: nat)
    requires i < Power(w) && j < Power(w) && Digits(i, w) == Digits(j, w)
    ensures i == j
  {
    if w == 0 {
    } else {
      var s, t := Digits(i, w), Digits(j, w);
      assert s[..w - 1] == Digits(i / 10, w - 1) && t[..w - 1] == Digits(j / 10, w - 1);
      assert s[w - 1] == t[w - 1];
      DigitsInjective(i / 10, j / 10, w - 1);
    }
  }

  /** "+7" and ten digits. */
  function Number(i: nat): (s: Bytes)
    ensures |s| == LENGTH && PhoneAt(s, 0)
  {
    [PLUS, SEVEN] + Digits(i, 10)
  }

  /** The first `n` numbers, one after the other. */
  function Directory(n: nat): (s: Bytes)
    ensures |s| == LENGTH * n
  {
    if n == 0 then [] else Directory(n - 1) + Number(n - 1)
  }

  lemma {:induction false} DirectoryAt(n: nat, k: nat)
    requires k < n
    ensures Directory(n)[LENGTH * k..LENGTH * k + LENGTH] == Number(k)
    decreases n
  {
    hide Number;
    var s := Directory(n - 1);
    if k == n - 1 {
      assert (s + Number(k))[|s|..] == Number(k);
    } else {
      DirectoryAt(n - 1, k);
      assert (s + Number(n - 1))[LENGTH * k..LENGTH * k + LENGTH] == s[LENGTH * k..LENGTH * k + LENGTH];
    }
  }

  lemma PhoneFromPart(s: Bytes, q: nat, t: Bytes)
    requires q + LENGTH <= |s| && s[q..q + LENGTH] == t && PhoneAt(t, 0)
    ensures PhoneAt(s, q)
  {
    assert forall j :: 0 <= j < LENGTH ==> s[q + j] == t[j];
    PhoneInPart(t, s, 0, q);
  }

  /** From the `k`-th number on the matches are the numbers. */
  lemma {:induction false} DirectorySpans(n: nat, k: nat)
    requires k <= n
    ensures var spans := PhoneSpans(Directory(n), LENGTH * k);
            && |spans| == n - k
            && forall i :: 0 <= i < n - k ==> spans[i] == Span(LENGTH * (k + i), LENGTH * (k + i) + LENGTH)
    decreases n - k
  {
    hide Directory, PhoneAt, Number;
    var s := Directory(n);
    if k == n {
    } else {
      DirectoryAt(n, k);
      PhoneFromPart(s, LENGTH * k, Number(k));
      DirectorySpans(n, k + 1);
      assert PhoneSpans(s, LENGTH * k) == [Span(LENGTH * k, LENGTH * k + LENGTH)] + PhoneSpans(s, LENGTH * (k + 1));
    }
  }

  lemma DirectoryNumbers(n: nat, k: nat)
    requires k < n
    ensures |FindPhones(Directory(n))| == n && NumberAt(Directory(n), k) == Number(k)
  {
    hide PhoneSpans, Directory, Number;
    DirectorySpans(n, 0);
    DirectoryAt(n, k);
  }

  lemma NumbersDiffer(i: nat, j: nat)
    requires i < 10000 && j < 10000 && Number(i) == Number(j)
    ensures i == j
  {
    assert Number(i)[2..] == Digits(i, 10) && Number(j)[2..] == Digits(j, 10);
    assert Power(4) == 10000 && Power(10) >= Power(4);
    DigitsInjective(i, j, 10);
  }

  /** A request of 1001 different numbers: the masked text still holds one, and if the provider
      repeats the last one it is stored as it is. */
  lemma {:induction false} ManyNumbersLeak()
    ensures exists q :: PhoneAt(PhoneMasked(Directory(1001)).content, q)
    ensures Remasked(Number(1000), PhoneMasked(Directory(1001)).entries) == Number(1000)
  {
    hide Directory, Number, PhoneMasked, FindPhones, NumberAt, Remasked, PhoneAt, MaskedNumbers, IsEarly;
    var content := Directory(1001);
    DirectoryNumbers(1001, 1000);
    PhoneMaskedLeaks(content);
    LastIsLate();
    MaskedNumbersAre(content, Number(1000));
    UnmaskedNumberStored(content, 1000);
  }

  lemma LastIsLate()
    ensures !IsEarly(Directory(1001), Number(1000))
  {
    hide Directory, Number, FindPhones, NumberAt;
    forall j | 0 <= j < |FindPhones(Directory(1001))| && j < MAX_MATCHES_PER_RULE
      ensures NumberAt(Directory(1001), j) != Number(1000)
    {
      DirectoryNumbers(1001, 0);
      DirectoryNumbers(1001, j);
      if Number(j) == Number(1000) { NumbersDiffer(j, 1000); }
    }
  }

  // ---------------------------------------------------------------------
  // Placeholders in the request
  // ---------------------------------------------------------------------

  /** "[PHONE_1]" */
  const PHONE_1: Bytes := [OPEN, 80, 72, 79, 78, 69, UNDERSCORE, 49, CLOSE]

  lemma FirstPlaceholder()
    ensures Placeholder(PHONE_TAG, 1) == PHONE_1
  {
    assert Decimal.Format(1) == [49];
  }

  /** A request that already holds "[PHONE_1]" beside a number: unmasking turns both into the
      number. */
  lemma {:induction false} PlaceholderInRequest()
    ensures var content := PHONE_1 + Number(0);
            Unmasked(PhoneMasked(content).content, PhoneMasked(content).entries) != content
  {
    hide Number, PhoneMasked, Unmasked, FindPhones, NumberAt, MaskedNumbers, IsEarly;
    var content := PHONE_1 + Number(0);
    FirstPlaceholder();
    assert content[9..9 + LENGTH] == Number(0);
    PhoneFromPart(content, 9, Number(0));
    SomeNumber(content, 9);
    assert content[0..9] == PHONE_1;
    assert OccursAt(PHONE_1, content, 0);
    PhoneRoundTrip(content);
  }

  lemma SomeNumber(content: Bytes, q: nat)
    requires PhoneAt(content, q)
    ensures MaskedNumbers(content) != []
  {
    hide PhoneAt, MaskedNumbers, PhoneSpans, NumberAt;
    PhoneSpansComplete(content, 0, q);
    MaskedNumbersAre(content, NumberAt(content, 0));
    assert IsEarly(content, NumberAt(content, 0));
  }

  // ---------------------------------------------------------------------
  // A rule that matches into placeholders
  // ---------------------------------------------------------------------

  /** The matches of `\d` from position `from` on. */
  function DigitSpans(s: Bytes, from: nat): (spans: seq<Span>)
    ensures forall k :: 0 <= k < |spans| ==> from <= spans[k].lo && spans[k].hi == spans[k].lo + 1
    ensures SpansOk(spans, |s|)
    decreases |s| - from
  {
    if from >= |s| then []
    else if Decimal.IsDigit(s[from]) then [Span(from, from + 1)] + DigitSpans(s, from + 1)
    else DigitSpans(s, from + 1)
  }

  function FindDigits(s: Bytes): (spans: seq<Span>)
    ensures SpansOk(spans, |s|)
  {
    DigitSpans(s, 0)
  }

  const N: Bytes := [78]

  /** A custom rule named "N" with the pattern `\d`. */
  ghost function DigitRule(): CompiledRule {
    CompiledRule(N, s => FindDigits(s))
  }

  /** "[PHONE_[N_1]]" */
  const BROKEN: Bytes := [OPEN, 80, 72, 79, 78, 69, UNDERSCORE, OPEN, 78, UNDERSCORE, 49, CLOSE, CLOSE]

  /** "[N_1]" */
  const N_1: Bytes := [OPEN, 78, UNDERSCORE, 49, CLOSE]

  const ONE: Bytes := [49]

  lemma {:induction false} OneMatch(x: Bytes, s: Span, maskType: Bytes, tag: Bytes)
    requires s.lo <= s.hi <= |x|
    ensures MaskMatches(x, [s], maskType, tag)
            == MaskResult(x[..s.lo] + Placeholder(tag, 1) + x[s.hi..],
                [MaskEntry(maskType, x[s.lo..s.hi], Placeholder(tag, 1))])
  {
    hide Placeholder;
    var spans := [s];
    var o := Slice(x, s);
    OriginalsCover(x, spans, 1);
    assert Originals(x, spans, 0) == [];
    assert Originals(x, spans, 1) == [o];
    var labels := Labels(tag, [o]);
    assert IndexIn(o, [o]) == 0 && labels[o] == Placeholder(tag, 1);
    assert Rewritten(x, spans, labels, 0) == [];
    assert Rewritten(x, spans, labels, 1) == x[..s.lo] + Placeholder(tag, 1);
  }

  lemma DigitLabel()
    ensures Label(AsciiUpper, N) == N
  {
    hide ReplaceAll;
    if Infix([SPACE], N) { FirstByteOfInfix([SPACE], N); }
    ReplaceAbsent(N, [SPACE], [UNDERSCORE]);
  }

  /** The only digit of "[PHONE_1]". */
  lemma DigitsOfPlaceholder()
    ensures FindDigits(PHONE_1) == [Span(7, 8)]
  {
    var s := PHONE_1;
    assert DigitSpans(s, 9) == [];
    assert DigitSpans(s, 8) == [];
    assert DigitSpans(s, 7) == [Span(7, 8)];
    assert DigitSpans(s, 6) == [Span(7, 8)] && DigitSpans(s, 5) == [Span(7, 8)] && DigitSpans(s, 4) == [Span(7, 8)];
    assert DigitSpans(s, 3) == [Span(7, 8)] && DigitSpans(s, 2) == [Span(7, 8)] && DigitSpans(s, 1) == [Span(7, 8)];
  }

  lemma NumberSpans()
    ensures FindPhones(Number(0)) == [Span(0, LENGTH)]
  {
    hide Number;
    assert PhoneSpans(Number(0), LENGTH) == [];
  }

  /** The phone rule alone. */
  lemma {:induction false} FirstRule()
    ensures Masked(Number(0), [PhoneRule()], AsciiUpper)
            == MaskResult(PHONE_1, [MaskEntry(PHONE_NAME, Number(0), PHONE_1)])
  {
    hide Number, MaskMatches, Matches, Label, PhoneRule, Masked, Placeholder, FindPhones;
    var x := Number(0);
    PhoneMatches(x);
    NumberSpans();
    PhoneMaskedIs(x);
    OneMatch(x, Span(0, LENGTH), PHONE_NAME, PHONE_TAG);
    FirstPlaceholder();
    hide PHONE_1, PHONE_TAG, PHONE_NAME;
    assert x[..0] + PHONE_1 + x[LENGTH..] == PHONE_1 && x[0..LENGTH] == x;
  }

  lemma DigitMatches()
    ensures Matches(PHONE_1, DigitRule()) == [Span(7, 8)] && DigitRule().name == N
  {
    hide FindDigits;
    DigitsOfPlaceholder();
  }

  lemma DigitPlaceholder()
    ensures PHONE_1[..7] + Placeholder(N, 1) + PHONE_1[8..] == BROKEN && PHONE_1[7..8] == ONE
            && Placeholder(N, 1) == N_1
  {
    assert Decimal.Format(1) == [49];
  }

  /** The digit rule on its result. */
  lemma {:induction false} SecondRule()
    ensures MaskRule(PHONE_1, DigitRule(), AsciiUpper) == MaskResult(BROKEN, [MaskEntry(N, ONE, N_1)])
  {
    hide MaskMatches, Label, Matches, DigitRule, Placeholder;
    DigitMatches();
    DigitLabel();
    OneMatch(PHONE_1, Span(7, 8), N, N);
    DigitPlaceholder();
  }

  lemma {:induction false} BothRules()
    ensures Masked(Number(0), [PhoneRule(), DigitRule()], AsciiUpper)
            == MaskResult(BROKEN, [MaskEntry(PHONE_NAME, Number(0), PHONE_1), MaskEntry(N, ONE, N_1)])
  {
    hide Number, MaskRule, PhoneRule, DigitRule, Masked, BROKEN, PHONE_1, N_1, ONE;
    TwoRules(Number(0), PhoneRule(), DigitRule(), AsciiUpper);
    FirstRule();
    SecondRule();
    assert [MaskEntry(PHONE_NAME, Number(0), PHONE_1)] + [MaskEntry(N, ONE, N_1)]
           == [MaskEntry(PHONE_NAME, Number(0), PHONE_1), MaskEntry(N, ONE, N_1)];
  }

  lemma TwoRules(x: Bytes, a: CompiledRule, b: CompiledRule, upper: Upper)
    ensures var first := Masked(x, [a], upper);
            var second := MaskRule(first.content, b, upper);
            Masked(x, [a, b], upper) == MaskResult(second.content, first.entries + second.entries)
  {
    hide MaskRule;
    assert [a, b][..1] == [a];
  }

  /** The pieces of the broken placeholder between its brackets. */
  const INNER: seq<Piece> := [Plain([80, 72, 79, 78, 69, UNDERSCORE]), Token(N_1, ONE)]

  lemma RevealToken(p: Piece, m: Bytes)
    requires p.Token?
    ensures Reveal([p], m) == if p.masked == m then [Plain(p.original)] else [p]
  {
    assert [p][1..] == [];
  }

  lemma InnerPieces()
    ensures Wrap(Render(INNER)) == BROKEN && Wrap(Restore(INNER)) == PHONE_1
    ensures TokenSet(INNER) == {Token(N_1, ONE)} && BracketFree(Restore(INNER))
    ensures Bracketed(N_1) && Bracketed(PHONE_1) && N_1 != PHONE_1
    ensures Reveal(INNER, N_1) == [Plain([80, 72, 79, 78, 69, UNDERSCORE]), Plain(ONE)]
    ensures Reveal(INNER, PHONE_1) == INNER
    ensures Render(Reveal(INNER, N_1)) == Restore(INNER)
  {
    assert |N_1| != |PHONE_1|;
    var a, b := INNER[0], INNER[1];
    assert INNER[1..] == [b] && [b][1..] == [];
    RenderSingle(b);
    RevealToken(b, N_1);
    RevealToken(b, PHONE_1);
    var rs := Reveal(INNER, N_1);
    assert rs[1..] == [Plain(ONE)] && Render([Plain(ONE)]) == ONE by { RenderSingle(Plain(ONE)); }
  }

  lemma FirstLeavesBroken(o: Bytes)
    ensures ReplaceAll(BROKEN, PHONE_1, o) == BROKEN
  {
    hide ReplaceAll, Render, Restore, TokenSet, Reveal, INNER, BROKEN, PHONE_1, N_1, ONE;
    InnerPieces();
    BrokenReplace(INNER, PHONE_1, o);
  }

  lemma SecondMends()
    ensures ReplaceAll(BROKEN, N_1, ONE) == PHONE_1
  {
    hide ReplaceAll, Render, Restore, TokenSet, Reveal, INNER, BROKEN, PHONE_1, N_1, ONE;
    InnerPieces();
    BrokenReplace(INNER, N_1, ONE);
  }

  /** The phone rule followed by a digit rule: one number is masked as "[PHONE_[N_1]]", which
      unmasks to "[PHONE_1]". */
  lemma {:induction false} DigitsBreakPhone()
    ensures var r := Masked(Number(0), [PhoneRule(), DigitRule()], AsciiUpper);
            && r.content == BROKEN
            && Unmasked(r.content, r.entries) == PHONE_1 != Number(0)
  {
    hide Number, Masked, ReplaceAll, BROKEN, PHONE_1, N_1, ONE, Unmasked, PhoneRule, DigitRule;
    BothRules();
    FirstLeavesBroken(Number(0));
    SecondMends();
    UnmaskTwo(BROKEN, MaskEntry(PHONE_NAME, Number(0), PHONE_1), MaskEntry(N, ONE, N_1));
    NumberStart();
  }

  lemma NumberStart()
    ensures Number(0) != PHONE_1
  {
    assert Number(0)[0] == PLUS;
  }

  lemma UnmaskTwo(x: Bytes, a: MaskEntry, b: MaskEntry)
    ensures Unmasked(x, [a, b]) == ReplaceAll(ReplaceAll(x, a.masked, a.original), b.masked, b.original)
  {
    hide ReplaceAll;
    var y := ReplaceAll(x, a.masked, a.original);
    assert [a, b][1..] == [b] && [b][1..] == [];
    assert Unmasked(y, [b]) == Unmasked(ReplaceAll(y, b.masked, b.original), []);
  }

  // ---------------------------------------------------------------------
  // A stream
  // ---------------------------------------------------------------------

  /** "[A_1]" for "B" and "[B_1]" for "x". */
  const A_1: Bytes := [OPEN, 65, UNDERSCORE, 49, CLOSE]
  const B_1: Bytes := [OPEN, 66, UNDERSCORE, 49, CLOSE]
  const NESTED: seq<MaskEntry> := [MaskEntry([65], [66], A_1), MaskEntry([66], [120], B_1)]

  /** "_1]" */
  const REST: Bytes := [UNDERSCORE, 49, CLOSE]

  lemma NestedEntries()
    ensures MasksBracketed(NESTED) && MasksDistinct(NESTED) && OriginalsBracketFree(NESTED)
    ensures [OPEN, 66] + REST == B_1 && NESTED[1..] == [NESTED[1]] && NESTED[2..] == []
    ensures MasksBracketed([NESTED[1]]) && MasksDistinct([NESTED[1]])
  {
  }

  /** Read as "[[A_1]" and "_1]" the client gets "[B" and more; the whole body unmasks to "x". */
  lemma {:induction false} TwoReadsDiffer()
    ensures Unmasked(Concat([[OPEN] + A_1, REST]), NESTED) == [120]
    ensures [OPEN, 66] <= StreamOutput([[OPEN] + A_1, REST], true, NESTED)
  {
    hide Unmasked, SafeCutoff, MasksBracketed, MasksDistinct, StreamOutput, Concat, NESTED;
    NestedEntries();
    var first := [OPEN] + A_1;
    ReadFirst();
    ReadWhole();
    TwoReads(first, REST, NESTED);
    assert first + REST == [OPEN] + A_1 + REST;
  }

  lemma {:induction false} ReadFirst()
    ensures SafeCutoff([OPEN] + A_1, NESTED) == |[OPEN] + A_1|
    ensures Unmasked([OPEN] + A_1, NESTED) == [OPEN, 66]
  {
    hide Unmasked, SafeCutoff;
    NestedEntries();
    PrefixOutput([OPEN], 0, NESTED);
    assert [OPEN] + A_1 + [] == [OPEN] + A_1 && [OPEN] + [66] + [] == [OPEN, 66];
    UnmaskOne([OPEN], 0, [], NESTED);
    CloseFreeUnchanged([OPEN, 66], NESTED[1..]);
  }

  lemma {:induction false} ReadWhole()
    ensures Unmasked([OPEN] + A_1 + REST, NESTED) == [120]
  {
    hide Unmasked;
    NestedEntries();
    UnmaskOne([OPEN], 0, REST, NESTED);
    assert [OPEN] + [66] + REST == B_1;
    var rest := [NESTED[1]];
    assert [] + B_1 + [] == B_1 && [] + [120] + [] == [120 as byte];
    UnmaskOne([], 0, [], rest);
    assert rest[1..] == [];
    CloseFreeUnchanged([120], []);
  }
}
