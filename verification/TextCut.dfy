/** Cutting text at rune boundaries and finding a shared system prompt:
    the text helpers of `processing/internal/service/intelligence.go`. */
module TextCut {
  import opened Options
  import opened ByteStrings
  import Decimal

  // ---------------------------------------------------------------------
  // Well-formed text (section 3 of RFC 3629)
  // ---------------------------------------------------------------------

  predicate ValidUtf8(s: Bytes) {
    s == [] || (StartsWithRune(s) && ValidUtf8(s[LeadWidth(s[0])..]))
  }

  /** `s` may be cut at `k`. */
  predicate Boundary(s: Bytes, k: nat)
    requires k <= |s|
  {
    k == |s| || RuneStart(s[k])
  }

  /** Decoding looks only at the bytes of the rune. */
  lemma RuneOfPrefix(p: Bytes, s: Bytes)
    requires StartsWithRune(p) && p <= s
    ensures StartsWithRune(s) && DecodeRune(s) == DecodeRune(p)
  {
  }

  /** A well-formed rune is determined by its code point and width, and no error looks like it. */
  lemma RuneIsItsBytes(a: Bytes, b: Bytes)
    requires StartsWithRune(a) && b != [] && DecodeRune(a) == DecodeRune(b)
    ensures StartsWithRune(b) && LeadWidth(a[0]) == LeadWidth(b[0]) == DecodeRune(a).width
    ensures b[..LeadWidth(a[0])] == a[..LeadWidth(a[0])]
  {
  }

  /** On well-formed text the boundaries are exactly the ends of well-formed prefixes, and
      what follows a boundary is well formed. */
  lemma {:induction false} BoundaryIsValidPrefix(s: Bytes, k: nat)
    requires ValidUtf8(s) && k <= |s|
    ensures Boundary(s, k) <==> ValidUtf8(s[..k])
    ensures Boundary(s, k) ==> ValidUtf8(s[k..])
    decreases |s|
  {
    if k == 0 {
      assert s[0..] == s;
    } else {
      var w := LeadWidth(s[0]);
      if k < w {
        assert s[..k][0] == s[0];
      } else {
        BoundaryIsValidPrefix(s[w..], k - w);
        assert s[..k][w..] == s[w..][..k - w] && s[w..][k - w..] == s[k..];
        assert s[..k][0] == s[0] && forall i :: 0 <= i < k ==> s[..k][i] == s[i];
      }
    }
  }

  /** A boundary is never further than three bytes away. */
  lemma {:induction false} BoundaryNear(s: Bytes, k: nat)
    requires ValidUtf8(s) && k <= |s|
    ensures exists j :: k - 3 <= j <= k && 0 <= j && Boundary(s, j)
    ensures exists j :: k <= j <= k + 3 && j <= |s| && Boundary(s, j)
    decreases |s|
  {
    if s == [] {
      assert Boundary(s, 0);
    } else {
      var w := LeadWidth(s[0]);
      assert Boundary(s, 0);
      if k < w {
        BoundaryIsValidPrefix(s, w) by {
          assert s[..w][w..] == [];
          assert forall i :: 0 <= i < w ==> s[..w][i] == s[i];
        }
        assert s[..w][w..] == [];
        assert ValidUtf8(s[..w]);
        assert Boundary(s, w);
      } else {
        BoundaryNear(s[w..], k - w);
        var j :| k - w - 3 <= j <= k - w && 0 <= j && Boundary(s[w..], j);
        assert Boundary(s, j + w);
        var l :| k - w <= l <= k - w + 3 && l <= |s| - w && Boundary(s[w..], l);
        assert Boundary(s, l + w);
      }
    }
  }

  lemma ValidStep(s: Bytes)
    requires s != []
    ensures ValidUtf8(s) <==> StartsWithRune(s) && ValidUtf8(s[LeadWidth(s[0])..])
    ensures StartsWithRune(s) ==> 1 <= LeadWidth(s[0]) <= |s|
  {
  }

  lemma {:induction false} ValidAppend(a: Bytes, b: Bytes)
    requires ValidUtf8(a) && ValidUtf8(b)
    ensures ValidUtf8(a + b)
    decreases |a|
  {
    hide ValidUtf8, StartsWithRune, LeadWidth, DecodeRune;
    if a == [] {
      assert a + b == b;
    } else {
      ValidStep(a);
      var w := LeadWidth(a[0]);
      RuneOfPrefix(a, a + b);
      assert (a + b)[0] == a[0] && (a + b)[w..] == a[w..] + b;
      ValidAppend(a[w..], b);
      ValidStep(a + b);
    }
  }

  lemma {:induction false} AsciiValid(s: Bytes)
    requires forall i :: 0 <= i < |s| ==> s[i] < 0x80
    ensures ValidUtf8(s)
  {
    if s == [] {
    } else {
      AsciiValid(s[1..]);
    }
  }

  // ---------------------------------------------------------------------
  // The longest common prefix
  // ---------------------------------------------------------------------

  function CommonPrefix(a: Bytes, b: Bytes): (p: Bytes)
    ensures p <= a
    decreases |a|
  {
    if a == [] || b == [] || DecodeRune(a) != DecodeRune(b) then []
    else var w := DecodeRune(a).width; a[..w] + CommonPrefix(a[w..], b[w..])
  }

  method LongestCommonPrefix(a: Bytes, b: Bytes) returns (p: Bytes)
    ensures p == CommonPrefix(a, b)
  {
    hide CommonPrefix, DecodeRune;
    var i := 0;
    assert a[0..] == a && b[0..] == b && a[..0] == [];
    while i < |a| && i < |b|
      invariant i <= |a| && i <= |b|
      invariant CommonPrefix(a, b) == a[..i] + CommonPrefix(a[i..], b[i..])
    {
      var ra, rb := DecodeRune(a[i..]), DecodeRune(b[i..]);
      CommonPrefixFrom(a, b, i);
      if ra.code != rb.code || ra.width != rb.width {
        return a[..i];
      }
      i := i + ra.width;
    }
    NothingInCommon(a[i..], b[i..]);
    return a[..i];
  }

  lemma NothingInCommon(a: Bytes, b: Bytes)
    requires a == [] || b == [] || DecodeRune(a) != DecodeRune(b)
    ensures CommonPrefix(a, b) == []
  {
  }

  /** One step of the comparison. */
  lemma {:induction false} CommonPrefixFrom(a: Bytes, b: Bytes, i: nat)
    requires i < |a| && i < |b|
    ensures DecodeRune(a[i..]) != DecodeRune(b[i..]) ==> CommonPrefix(a[i..], b[i..]) == []
    ensures DecodeRune(a[i..]) == DecodeRune(b[i..]) ==>
              var w := DecodeRune(a[i..]).width;
              a[..i] + CommonPrefix(a[i..], b[i..]) == a[..i + w] + CommonPrefix(a[i + w..], b[i + w..])
  {
    hide DecodeRune;
    if DecodeRune(a[i..]) == DecodeRune(b[i..]) {
      var w := DecodeRune(a[i..]).width;
      assert a[i..][w..] == a[i + w..] && b[i..][w..] == b[i + w..];
      assert a[..i] + a[i..][..w] == a[..i + w];
      Assoc(a[..i], a[i..][..w], CommonPrefix(a[i + w..], b[i + w..]));
    }
  }

  /** If one text is well formed the result is a well-formed prefix of both. */
  lemma {:induction false} CommonPrefixIsCommon(a: Bytes, b: Bytes)
    requires ValidUtf8(a) || ValidUtf8(b)
    ensures CommonPrefix(a, b) <= a && CommonPrefix(a, b) <= b && ValidUtf8(CommonPrefix(a, b))
    decreases |a|
  {
    if a != [] && b != [] && DecodeRune(a) == DecodeRune(b) {
      if ValidUtf8(a) { RuneIsItsBytes(a, b); } else { RuneIsItsBytes(b, a); }
      var w := DecodeRune(a).width;
      var rest := CommonPrefix(a[w..], b[w..]);
      CommonPrefixIsCommon(a[w..], b[w..]);
      assert b == b[..w] + b[w..];
      var p := a[..w] + rest;
      assert p[w..] == rest && StartsWithRune(p) by {
        assert a[..w][0] == a[0] && forall i :: 0 <= i < w ==> p[i] == a[i];
      }
    }
  }

  /** No well-formed common prefix is longer, whatever the texts. */
  lemma {:induction false} CommonPrefixIsLongest(a: Bytes, b: Bytes, p: Bytes)
    requires ValidUtf8(p) && p <= a && p <= b
    ensures p <= CommonPrefix(a, b)
    decreases |p|
  {
    if p == [] {
    } else {
      RuneOfPrefix(p, a);
      RuneOfPrefix(p, b);
      var w := LeadWidth(p[0]);
      CommonPrefixIsLongest(a[w..], b[w..], p[w..]);
      assert p == p[..w] + p[w..] && p[..w] == a[..w];
    }
  }

  /** How many bytes two texts have in common at the front. */
  function Shared(a: Bytes, b: Bytes): (n: nat)
    ensures n <= |a| && n <= |b| && a[..n] == b[..n]
    ensures n < |a| && n < |b| ==> a[n] != b[n]
  {
    if a == [] || b == [] || a[0] != b[0] then 0 else 1 + Shared(a[1..], b[1..])
  }

  /** Decoding `s` rune by rune comes to position `p`. */
  predicate Lands(s: Bytes, p: nat)
    decreases |s|
  {
    p == 0 || (s != [] && DecodeRune(s).width <= p && Lands(s[DecodeRune(s).width..], p - DecodeRune(s).width))
  }

  /** At `d` both texts are ill-formed, and both are decoded from there. */
  predicate SameErrorAt(a: Bytes, b: Bytes, d: nat) {
    && d < |a| && d < |b| && Lands(a, d) && Lands(b, d)
    && !StartsWithRune(a[d..]) && !StartsWithRune(b[d..])
  }

  /** They are so where the texts first differ. */
  predicate SameError(a: Bytes, b: Bytes) {
    SameErrorAt(a, b, Shared(a, b))
  }

  lemma {:induction false} SharedIs(a: Bytes, b: Bytes, n: nat)
    requires n <= |a| && n <= |b| && a[..n] == b[..n] && (n < |a| && n < |b| ==> a[n] != b[n])
    ensures Shared(a, b) == n
  {
    if n == 0 {
    } else {
      assert a[..n][0] == b[..n][0] && a[1..][..n - 1] == a[..n][1..] && b[1..][..n - 1] == b[..n][1..];
      SharedIs(a[1..], b[1..], n - 1);
    }
  }

  lemma SharedBehind(a: Bytes, b: Bytes, w: nat)
    requires w <= Shared(a, b)
    ensures Shared(a[w..], b[w..]) == Shared(a, b) - w
  {
    var n := Shared(a, b);
    assert a[w..][..n - w] == a[..n][w..] && b[w..][..n - w] == b[..n][w..];
    SharedIs(a[w..], b[w..], n - w);
  }

  /** Where the texts agree on a whole rune they decode alike. */
  lemma RunesAgree(a: Bytes, b: Bytes, d: nat)
    requires a != [] && b != [] && d == Shared(a, b) && 0 < d
    requires DecodeRune(a).width <= d && DecodeRune(b).width <= d
    ensures DecodeRune(a) == DecodeRune(b)
  {
    assert forall i :: 0 <= i < d ==> a[i] == a[..d][i] == b[..d][i] == b[i];
    if StartsWithRune(a) {
      RuneOfPrefix(a[..d], a) by { PrefixStarts(a, d); }
      RuneOfPrefix(a[..d], b) by { PrefixStarts(a, d); assert a[..d] == b[..d] <= b; }
    } else if StartsWithRune(b) {
      RuneOfPrefix(b[..d], a) by { PrefixStarts(b, d); assert b[..d] == a[..d] <= a; }
    }
  }

  lemma PrefixStarts(s: Bytes, d: nat)
    requires StartsWithRune(s) && LeadWidth(s[0]) <= d <= |s|
    ensures StartsWithRune(s[..d])
  {
  }

  /** If the runes at the front are equal, so are their bytes, or both are ill-formed. */
  lemma RunesEqual(a: Bytes, b: Bytes)
    requires a != [] && b != [] && DecodeRune(a) == DecodeRune(b)
    ensures var w := DecodeRune(a).width;
            || (w <= Shared(a, b) && a[..w] == b[..w])
            || (w == 1 && Shared(a, b) == 0 && !StartsWithRune(a) && !StartsWithRune(b))
  {
    if StartsWithRune(a) {
      RuneIsItsBytes(a, b);
      EqualFront(a, b, DecodeRune(a).width);
    } else {
      if StartsWithRune(b) { RuneIsItsBytes(b, a); }
      if a[0] == b[0] { EqualFront(a, b, 1); }
    }
  }

  lemma EqualFront(a: Bytes, b: Bytes, w: nat)
    requires w <= |a| && w <= |b| && forall i :: 0 <= i < w ==> a[i] == b[i]
    ensures w <= Shared(a, b) && a[..w] == b[..w]
  {
    var n := Shared(a, b);
    assert a[..w] == b[..w];
  }

  lemma LandsStep(s: Bytes, p: nat)
    requires s != [] && DecodeRune(s).width <= p
    ensures Lands(s, p) <==> Lands(s[DecodeRune(s).width..], p - DecodeRune(s).width)
  {
  }

  /** Behind an equal first rune nothing changes. */
  lemma SameErrorBehind(a: Bytes, b: Bytes)
    requires a != [] && b != [] && DecodeRune(a) == DecodeRune(b) && DecodeRune(a).width <= Shared(a, b)
    ensures var w := DecodeRune(a).width; SameError(a, b) <==> SameError(a[w..], b[w..])
  {
    hide StartsWithRune, DecodeRune, Shared, Lands, SameErrorAt;
    var w, d := DecodeRune(a).width, Shared(a, b);
    SharedBehind(a, b, w);
    LandsStep(a, d);
    LandsStep(b, d);
    SameErrorShift(a, b, w, d);
  }

  lemma SameErrorShift(a: Bytes, b: Bytes, w: nat, d: nat)
    requires w <= d <= |a| && d <= |b|
    requires (Lands(a, d) <==> Lands(a[w..], d - w)) && (Lands(b, d) <==> Lands(b[w..], d - w))
    ensures SameErrorAt(a, b, d) <==> SameErrorAt(a[w..], b[w..], d - w)
  {
    hide StartsWithRune, Lands;
    assert a[w..][d - w..] == a[d..] && b[w..][d - w..] == b[d..];
  }

  /** The result is a prefix of the second text exactly when the texts do not first differ in
      ill-formed bytes that both decode to the same error. */
  lemma {:induction false} CommonPrefixExactly(a: Bytes, b: Bytes)
    ensures CommonPrefix(a, b) <= b <==> !SameError(a, b)
    decreases |a|
  {
    hide StartsWithRune, DecodeRune, Shared;
    if a == [] || b == [] {
    } else if DecodeRune(a) != DecodeRune(b) {
      DifferentRunes(a, b);
    } else {
      var w := DecodeRune(a).width;
      RunesEqual(a, b);
      assert a[0..] == a && b[0..] == b;
      if w <= Shared(a, b) {
        SameErrorBehind(a, b);
        hide SameError;
        CommonPrefixExactly(a[w..], b[w..]);
        PrefixCons(a[..w], CommonPrefix(a[w..], b[w..]), b);
      } else {
        FirstDiffers(a, b);
      }
    }
  }

  lemma DifferentRunes(a: Bytes, b: Bytes)
    requires a != [] && b != [] && DecodeRune(a) != DecodeRune(b)
    ensures !SameError(a, b)
  {
    hide StartsWithRune, Shared;
    var d := Shared(a, b);
    if d > 0 && Lands(a, d) && Lands(b, d) {
      RunesAgree(a, b, d);
    }
    assert a[0..] == a && b[0..] == b;
    if d == 0 && !StartsWithRune(a) && !StartsWithRune(b) { BothErrors(a, b); }
  }

  lemma BothErrors(a: Bytes, b: Bytes)
    requires a != [] && b != [] && !StartsWithRune(a) && !StartsWithRune(b)
    ensures DecodeRune(a) == DecodeRune(b)
  {
  }

  lemma PrefixCons(p: Bytes, r: Bytes, b: Bytes)
    requires |p| <= |b| && b[..|p|] == p
    ensures p + r <= b <==> r <= b[|p|..]
  {
    assert b == p + b[|p|..];
    if p + r <= b {
      assert (p + r)[|p|..] == r && b[|p|..][..|r|] == b[..|p + r|][|p|..];
    }
  }

  lemma FirstDiffers(a: Bytes, b: Bytes)
    requires a != [] && b != [] && DecodeRune(a) == DecodeRune(b) && DecodeRune(a).width == 1 && Shared(a, b) == 0
    ensures !(CommonPrefix(a, b) <= b)
  {
    assert CommonPrefix(a, b)[0] == a[0] != b[0];
  }

  /** For instance on the bytes 0xFF and 0xFE. */
  lemma IllFormedPrefixDiffers()
    ensures CommonPrefix([0xFF], [0xFE]) == [0xFF] && !([0xFF] <= [0xFE as byte])
  {
  }

  // ---------------------------------------------------------------------
  // A prefix shared by many inputs
  // ---------------------------------------------------------------------

  const MIN_PROMPT: nat := 100

  function SharedPrefix(candidate: Bytes, inputs: seq<Bytes>): Bytes
    decreases |inputs|
  {
    if inputs == [] then candidate else SharedPrefix(CommonPrefix(candidate, inputs[0]), inputs[1..])
  }

  /** `p` is a well-formed prefix of all texts. */
  ghost predicate PrefixOfAll(p: Bytes, texts: seq<Bytes>) {
    ValidUtf8(p) && forall i :: 0 <= i < |texts| ==> p <= texts[i]
  }

  ghost predicate LongestShared(p: Bytes, texts: seq<Bytes>) {
    PrefixOfAll(p, texts) && forall q :: PrefixOfAll(q, texts) ==> q <= p
  }

  lemma PrefixTransitive(p: Bytes, q: Bytes, s: Bytes)
    requires p <= q && q <= s
    ensures p <= s
  {
  }

  /** Folding over many inputs gives the longest well-formed prefix they all share. */
  lemma {:induction false} SharedPrefixIsLongest(candidate: Bytes, inputs: seq<Bytes>)
    requires ValidUtf8(candidate)
    ensures LongestShared(SharedPrefix(candidate, inputs), [candidate] + inputs)
    decreases |inputs|
  {
    var texts, r := [candidate] + inputs, SharedPrefix(candidate, inputs);
    if inputs == [] {
      forall q | PrefixOfAll(q, texts) ensures q <= candidate { assert q <= texts[0]; }
    } else {
      var c := CommonPrefix(candidate, inputs[0]);
      var rest := [c] + inputs[1..];
      CommonPrefixIsCommon(candidate, inputs[0]);
      SharedPrefixIsLongest(c, inputs[1..]);
      assert r <= rest[0] == c;
      forall i | 0 <= i < |texts| ensures r <= texts[i] {
        if i >= 2 { assert rest[i - 1] == texts[i]; } else { PrefixTransitive(r, c, texts[i]); }
      }
      forall q | PrefixOfAll(q, texts) ensures q <= r {
        assert q <= texts[0] && q <= texts[1];
        CommonPrefixIsLongest(candidate, inputs[0], q);
        assert PrefixOfAll(q, rest) by {
          forall i | 0 <= i < |rest| ensures q <= rest[i] {
            if i > 0 { assert rest[i] == texts[i + 1]; }
          }
        }
      }
    }
  }

  lemma {:induction false} SharedPrefixShrinks(candidate: Bytes, inputs: seq<Bytes>)
    ensures |SharedPrefix(candidate, inputs)| <= |candidate|
    decreases |inputs|
  {
    if inputs == [] {
    } else {
      SharedPrefixShrinks(CommonPrefix(candidate, inputs[0]), inputs[1..]);
    }
  }

  /** The fallback: stops early when the candidate gets too short. */
  method PromptByPrefix(inputs: seq<Bytes>) returns (candidate: Option<Bytes>)
    requires |inputs| >= 2
    ensures var shared := SharedPrefix(inputs[0], inputs[1..]);
            candidate == if |shared| < 100 then None else Some(shared)
  {
    var c := LongestCommonPrefix(inputs[0], inputs[1]);
    assert inputs[1..][0] == inputs[1] && inputs[1..][1..] == inputs[2..];
    var i := 2;
    while i < |inputs|
      invariant 2 <= i <= |inputs|
      invariant SharedPrefix(c, inputs[i..]) == SharedPrefix(inputs[0], inputs[1..])
    {
      assert inputs[i..][0] == inputs[i] && inputs[i..][1..] == inputs[i + 1..];
      c := LongestCommonPrefix(c, inputs[i]);
      i := i + 1;
      if |c| < MIN_PROMPT {
        SharedPrefixShrinks(c, inputs[i..]);
        return None;
      }
    }
    assert SharedPrefix(c, inputs[i..]) == c;
    return if |c| < MIN_PROMPT then None else Some(c);
  }

  // ---------------------------------------------------------------------
  // The system block
  // ---------------------------------------------------------------------

  const NEWLINE: byte := 10

  /** "system: " */
  const SYSTEM: Bytes := [115, 121, 115, 116, 101, 109, 58, 32]

  /** `strings.HasPrefix` with the marker. */
  predicate HasMarker(s: Bytes) {
    SYSTEM <= s
  }

  /** Where the first line ends, its newline included. */
  function LineEnd(s: Bytes): (n: nat)
    ensures n <= |s| && (s != [] ==> n > 0)
    ensures forall i :: 0 <= i < n - 1 ==> s[i] != NEWLINE
    ensures n < |s| ==> s[n - 1] == NEWLINE
  {
    if s == [] then 0 else if s[0] == NEWLINE then 1 else 1 + LineEnd(s[1..])
  }

  function SystemBlock(s: Bytes): (b: Bytes)
    ensures b <= s
    decreases |s|
  {
    if HasMarker(s) then s[..LineEnd(s)] + SystemBlock(s[LineEnd(s)..]) else []
  }

  method ExtractSystemBlock(input: Bytes) returns (b: Bytes)
    ensures b == SystemBlock(input)
  {
    hide SystemBlock, LineEnd, HasMarker;
    var end := 0;
    assert input[0..] == input && input[..0] == [];
    while true
      invariant end <= |input|
      invariant SystemBlock(input) == input[..end] + SystemBlock(input[end..])
      decreases |input| - end
    {
      var tail := input[end..];
      var nlIdx := IndexNewline(tail);
      BlockFrom(input, end);
      if nlIdx < 0 {
        if HasMarker(tail) {
          return input;
        }
        break;
      }
      var line := tail[..nlIdx];
      SystemLine(tail, nlIdx);
      if !HasMarker(line) {
        break;
      }
      end := end + nlIdx + 1;
    }
    if end == 0 { return []; }
    return input[..end];
  }

  lemma BlockUnfold(t: Bytes)
    ensures SystemBlock(t) == if HasMarker(t) then t[..LineEnd(t)] + SystemBlock(t[LineEnd(t)..]) else []
    ensures SystemBlock([]) == []
  {
  }

  /** One line of the block. */
  lemma {:induction false} BlockFrom(s: Bytes, i: nat)
    requires i <= |s|
    ensures !HasMarker(s[i..]) ==> SystemBlock(s[i..]) == []
    ensures HasMarker(s[i..]) ==>
              var j := i + LineEnd(s[i..]);
              && s[..i] + SystemBlock(s[i..]) == s[..j] + SystemBlock(s[j..])
              && (j == |s| ==> s[..i] + SystemBlock(s[i..]) == s)
  {
    hide LineEnd, SystemBlock, HasMarker;
    BlockUnfold(s[i..]);
    if HasMarker(s[i..]) {
      var n := LineEnd(s[i..]);
      assert s[i..][n..] == s[i + n..];
      assert s[..i] + s[i..][..n] == s[..i + n];
      Assoc(s[..i], s[i..][..n], SystemBlock(s[i + n..]));
    }
  }

  /** `strings.IndexByte` for the newline. */
  method IndexNewline(s: Bytes) returns (i: int)
    ensures i < 0 ==> LineEnd(s) == |s| && (s == [] || s[|s| - 1] != NEWLINE)
    ensures i >= 0 ==> i < |s| && s[i] == NEWLINE && LineEnd(s) == i + 1
  {
    for k := 0 to |s|
      invariant forall j :: 0 <= j < k ==> s[j] != NEWLINE
    {
      if s[k] == NEWLINE {
        return k;
      }
    }
    return -1;
  }

  /** A line starts with the marker exactly when the text behind it does. */
  lemma SystemLine(s: Bytes, n: nat)
    requires n < |s| && s[n] == NEWLINE
    ensures HasMarker(s[..n]) <==> HasMarker(s)
  {
  }

  /** Lines that all start with "system: ". */
  predicate SystemLines(s: Bytes)
    decreases |s|
  {
    s == [] || ([115, 121, 115, 116, 101, 109, 58, 32] <= s && SystemLines(s[LineEnd(s)..]))
  }

  /** `p` is the text of some first lines of `s`. */
  predicate WholeLines(p: Bytes, s: Bytes) {
    p <= s && (p == s || p == [] || p[|p| - 1] == NEWLINE)
  }

  lemma {:induction false} LineEndIs(s: Bytes, n: nat)
    requires 0 < n <= |s| && (n == |s| || s[n - 1] == NEWLINE)
    requires forall i :: 0 <= i < n - 1 ==> s[i] != NEWLINE
    ensures LineEnd(s) == n
  {
  }

  lemma LineEndOfPrefix(p: Bytes, s: Bytes)
    requires WholeLines(p, s) && p != []
    ensures LineEnd(p) == LineEnd(s) <= |p| && WholeLines(p[LineEnd(s)..], s[LineEnd(s)..])
  {
    hide LineEnd;
    assert forall i :: 0 <= i < |p| ==> p[i] == s[i];
    var n := LineEnd(p);
    LineEndIs(s, n);
    assert p[n..] <= s[n..];
    if n < |p| { assert p[n..][|p| - n - 1] == p[|p| - 1]; }
  }

  /** The block is itself made of whole lines of the text. */
  lemma {:induction false} BlockIsWholeLines(s: Bytes)
    ensures SystemLines(SystemBlock(s)) && WholeLines(SystemBlock(s), s)
    decreases |s|
  {
    if HasMarker(s) {
      var n := LineEnd(s);
      BlockIsWholeLines(s[n..]);
      LineHoldsMarker(s);
      JoinLine(s, SystemBlock(s[n..]));
    }
  }

  lemma JoinedIs(s: Bytes, n: nat, rest: Bytes)
    requires 0 < n <= |s| && WholeLines(rest, s[n..]) && (n < |s| ==> s[n - 1] == NEWLINE)
    ensures var b := s[..n] + rest; b[..n] == s[..n] && b[n..] == rest && WholeLines(b, s)
    ensures n < |s[..n] + rest| ==> s[n - 1] == NEWLINE
  {
    var b := s[..n] + rest;
    assert s == s[..n] + s[n..];
    if rest != [] { assert b[|b| - 1] == rest[|rest| - 1]; }
  }

  /** A first line with the marker in front of such lines. */
  lemma JoinLine(s: Bytes, rest: Bytes)
    requires HasMarker(s[..LineEnd(s)]) && SystemLines(rest) && WholeLines(rest, s[LineEnd(s)..])
    ensures SystemLines(s[..LineEnd(s)] + rest) && WholeLines(s[..LineEnd(s)] + rest, s)
  {
    hide LineEnd, WholeLines;
    var n := LineEnd(s);
    var b := s[..n] + rest;
    JoinedIs(s, n, rest);
    assert forall i :: 0 <= i < n ==> b[i] == s[i];
    LineEndIs(b, n);
    PrefixTransitive(SYSTEM, s[..n], b);
  }

  /** And no longer run of whole first lines starts with "system: " in every line. */
  lemma {:induction false} BlockIsLongest(s: Bytes, p: Bytes)
    requires WholeLines(p, s) && SystemLines(p)
    ensures p <= SystemBlock(s)
    decreases |s|
  {
    hide LineEnd;
    if p == [] {
    } else {
      var n := LineEnd(s);
      LineEndOfPrefix(p, s);
      PrefixTransitive(SYSTEM, p, s);
      BlockIsLongest(s[n..], p[n..]);
      assert p == s[..n] + p[n..];
    }
  }

  lemma LineHoldsMarker(s: Bytes)
    requires HasMarker(s)
    ensures HasMarker(s[..LineEnd(s)])
  {
  }

  /** The block all inputs that have one agree on; none when they differ or none has one. */
  method ExtractSystemBlockCandidate(inputs: seq<Bytes>) returns (candidate: Bytes)
    ensures candidate != [] ==>
              && (exists i :: 0 <= i < |inputs| && SystemBlock(inputs[i]) == candidate)
              && (forall i :: 0 <= i < |inputs| ==> SystemBlock(inputs[i]) in [[], candidate])
    ensures candidate == [] ==>
              || (forall i :: 0 <= i < |inputs| ==> SystemBlock(inputs[i]) == [])
              || (exists i, j :: 0 <= i < j < |inputs| && SystemBlock(inputs[i]) != SystemBlock(inputs[j])
                               && SystemBlock(inputs[i]) != [] && SystemBlock(inputs[j]) != [])
  {
    candidate := [];
    ghost var found := 0;
    for k := 0 to |inputs|
      invariant candidate == [] ==> forall i :: 0 <= i < k ==> SystemBlock(inputs[i]) == []
      invariant candidate != [] ==> found < k && SystemBlock(inputs[found]) == candidate
      invariant candidate != [] ==> forall i :: 0 <= i < k ==> SystemBlock(inputs[i]) in [[], candidate]
    {
      var block := ExtractSystemBlock(inputs[k]);
      if block != [] {
        if candidate == [] {
          candidate, found := block, k;
        } else if block != candidate {
          return [];
        }
      }
    }
  }

  // ---------------------------------------------------------------------
  // Truncation
  // ---------------------------------------------------------------------

  /** The last rune start at or before `k`, or 0. */
  function CutBefore(s: Bytes, k: nat): (j: nat)
    requires k < |s|
    ensures j <= k && (j == 0 || RuneStart(s[j])) && forall i :: j < i <= k ==> !RuneStart(s[i])
  {
    if k == 0 || RuneStart(s[k]) then k else CutBefore(s, k - 1)
  }

  /** The first rune start at or after `k`, or the end. */
  function CutAfter(s: Bytes, k: nat): (j: nat)
    requires k <= |s|
    ensures k <= j <= |s| && (j == |s| || RuneStart(s[j])) && forall i :: k <= i < j ==> !RuneStart(s[i])
    decreases |s| - k
  {
    if k == |s| || RuneStart(s[k]) then k else CutAfter(s, k + 1)
  }

  method Truncate(s: Bytes, maxLen: nat) returns (t: Bytes)
    ensures t == if |s| <= maxLen then s else s[..CutBefore(s, maxLen)]
  {
    if |s| <= maxLen { return s; }
    var k := maxLen;
    while k > 0 && !RuneStart(s[k])
      invariant 0 <= k <= maxLen && CutBefore(s, k) == CutBefore(s, maxLen)
    {
      k := k - 1;
    }
    return s[..k];
  }

  /** "...[truncated, " and " bytes]..." */
  const BEFORE_COUNT: Bytes := [46, 46, 46, 91, 116, 114, 117, 110, 99, 97, 116, 101, 100, 44, 32]
  const AFTER_COUNT: Bytes := [32, 98, 121, 116, 101, 115, 93, 46, 46, 46]

  function Marked(head: Bytes, omitted: nat, tail: Bytes): Bytes {
    head + (BEFORE_COUNT + Decimal.Format(omitted) + AFTER_COUNT) + tail
  }

  /** `t` begins with the first `h` bytes of `s` and ends with those from `f` on; between them
      stands the marker with the number of bytes left out. */
  predicate Fragment(s: Bytes, h: nat, f: nat, t: Bytes) {
    && h < f <= |s| && |t| >= h + (|s| - f)
    && t[..h] == s[..h] && t[|t| - (|s| - f)..] == s[f..]
    && t[h..|t| - (|s| - f)] == BEFORE_COUNT + Decimal.Format(f - h) + AFTER_COUNT
  }

  lemma MarkedIsFragment(s: Bytes, h: nat, f: nat)
    requires h < f <= |s|
    ensures Fragment(s, h, f, Marked(s[..h], f - h, s[f..]))
  {
  }

  method TruncateForLLM(s: Bytes, maxLen: nat, headLen: int) returns (t: Bytes)
    ensures |s| <= maxLen ==> t == s
    ensures |s| > maxLen && (maxLen <= headLen || headLen <= 0) ==> t == s[..CutBefore(s, maxLen)]
    ensures |s| > maxLen > headLen > 0 ==>
              var h, f := CutBefore(s, headLen), CutAfter(s, |s| - (maxLen - headLen));
              Fragment(s, h, f, t)
  {
    hide Fragment, Marked;
    if |s| <= maxLen { return s; }
    var tailLen := maxLen - headLen;
    if tailLen <= 0 || headLen <= 0 {
      t := Truncate(s, maxLen);
      return;
    }
    var head := Truncate(s, headLen);
    var tailStart := |s| - tailLen;
    while tailStart < |s| && !RuneStart(s[tailStart])
      invariant |s| - tailLen <= tailStart <= |s| && CutAfter(s, tailStart) == CutAfter(s, |s| - tailLen)
    {
      tailStart := tailStart + 1;
    }
    var tail := s[tailStart..];
    var omitted := |s| - |head| - |tail|;
    t := Marked(head, omitted, tail);
    MarkedIsFragment(s, |head|, tailStart);
  }

  /** On well-formed text a cut keeps the longest well-formed prefix of at most `n` bytes, and
      gives up at most three. */
  lemma CutBeforeIsLongest(s: Bytes, n: nat)
    requires ValidUtf8(s) && n < |s|
    ensures var h := CutBefore(s, n);
            && n - 3 <= h <= n && ValidUtf8(s[..h])
            && forall p :: ValidUtf8(p) && p <= s && |p| <= n ==> p <= s[..h]
  {
    var h := CutBefore(s, n);
    BoundaryIsValidPrefix(s, 0);
    BoundaryIsValidPrefix(s, h);
    BoundaryNear(s, n);
    assert s[..0] == [];
    forall p | ValidUtf8(p) && p <= s && |p| <= n ensures p <= s[..h] {
      assert p == s[..|p|];
      BoundaryIsValidPrefix(s, |p|);
    }
  }

  /** And the tail is the longest well-formed suffix of at most `n` bytes. */
  lemma CutAfterIsLongest(s: Bytes, n: nat)
    requires ValidUtf8(s) && n <= |s|
    ensures var f := CutAfter(s, |s| - n);
            && n - 3 <= |s| - f <= n && ValidUtf8(s[f..])
            && forall k :: 0 <= k <= |s| && ValidUtf8(s[..k]) && |s| - k <= n ==> f <= k
  {
    var f := CutAfter(s, |s| - n);
    BoundaryIsValidPrefix(s, f);
    BoundaryNear(s, |s| - n);
    forall k | 0 <= k <= |s| && ValidUtf8(s[..k]) && |s| - k <= n ensures f <= k {
      BoundaryIsValidPrefix(s, k);
    }
  }

  /** A text over its limit keeps a rune-aligned head and a disjoint rune-aligned tail within
      their budgets, reports exactly the bytes in between, and stays well formed. */
  lemma TruncationIsFaithful(s: Bytes, maxLen: nat, headLen: nat)
    requires ValidUtf8(s) && |s| > maxLen > headLen > 0
    ensures var h, f := CutBefore(s, headLen), CutAfter(s, |s| - (maxLen - headLen));
            && h <= headLen && |s| - f <= maxLen - headLen
            && h + (f - h) + |s[f..]| == |s| && f - h > 0
            && ValidUtf8(s[..h]) && ValidUtf8(s[h..f]) && ValidUtf8(s[f..])
            && ValidUtf8(Marked(s[..h], f - h, s[f..]))
  {
    hide CutBefore, CutAfter, ValidUtf8, Marked;
    var h, f := CutBefore(s, headLen), CutAfter(s, |s| - (maxLen - headLen));
    CutBeforeIsLongest(s, headLen);
    CutAfterIsLongest(s, maxLen - headLen);
    MiddleValid(s, h, f);
    MarkedValid(s[..h], f - h, s[f..]);
  }

  lemma MiddleValid(s: Bytes, h: nat, f: nat)
    requires ValidUtf8(s) && h <= f <= |s| && ValidUtf8(s[..h]) && ValidUtf8(s[f..]) && Boundary(s, f)
    ensures ValidUtf8(s[h..f])
  {
    BoundaryIsValidPrefix(s, f);
    BoundaryIsValidPrefix(s[..f], h);
    assert s[..f][..h] == s[..h] && s[..f][h..] == s[h..f];
  }

  lemma MarkedValid(head: Bytes, omitted: nat, tail: Bytes)
    requires ValidUtf8(head) && ValidUtf8(tail)
    ensures ValidUtf8(Marked(head, omitted, tail))
  {
    var marker := BEFORE_COUNT + Decimal.Format(omitted) + AFTER_COUNT;
    AsciiValid(marker);
    ValidAppend(head, marker);
    ValidAppend(head + marker, tail);
  }
}
