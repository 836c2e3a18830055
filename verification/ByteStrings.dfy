/** Byte strings, the UTF-8 decoder of Go's `unicode/utf8`, and `bytes.ReplaceAll`
    with the substring facts every masking theorem rests on. */
module ByteStrings {

  newtype byte = x: int | 0 <= x < 256

  type Bytes = seq<byte>

  // ---------------------------------------------------------------------
  // UTF-8 decoding, one rune at a time (section 3 of RFC 3629)
  // ---------------------------------------------------------------------

  /** A decoded code point and the number of bytes it takes. An ill-formed
      sequence decodes to `ERROR_RUNE` with width 1. */
  datatype Rune = Rune(code: int, width: nat)

  const ERROR_RUNE: int := 0xFFFD

  predicate Continuation(b: byte) {
    0x80 <= b <= 0xBF
  }

  /** `utf8.RuneStart`: not a continuation byte. */
  predicate RuneStart(b: byte) {
    !Continuation(b)
  }

  function LeadWidth(b: byte): nat {
    if b < 0x80 then 1
    else if 0xC2 <= b <= 0xDF then 2
    else if 0xE0 <= b <= 0xEF then 3
    else if 0xF0 <= b <= 0xF4 then 4
    else 0
  }

  function SecondLow(lead: byte): byte {
    if lead == 0xE0 then 0xA0 else if lead == 0xF0 then 0x90 else 0x80
  }

  function SecondHigh(lead: byte): byte {
    if lead == 0xED then 0x9F else if lead == 0xF4 then 0x8F else 0xBF
  }

  /** The string starts with one well-formed UTF-8 sequence. */
  predicate StartsWithRune(s: Bytes) {
    && s != []
    && var w := LeadWidth(s[0]);
    && 1 <= w <= |s|
    && (w >= 2 ==> SecondLow(s[0]) <= s[1] <= SecondHigh(s[0]))
    && (w >= 3 ==> Continuation(s[2]))
    && (w >= 4 ==> Continuation(s[3]))
  }

  function DecodeRune(s: Bytes): (r: Rune)
    requires s != []
    ensures 1 <= r.width <= |s|
  {
    if !StartsWithRune(s) then Rune(ERROR_RUNE, 1)
    else if LeadWidth(s[0]) == 1 then Rune(s[0] as int, 1)
    else if LeadWidth(s[0]) == 2 then
      Rune((s[0] as int - 0xC0) * 64 + (s[1] as int - 0x80), 2)
    else if LeadWidth(s[0]) == 3 then
      Rune((s[0] as int - 0xE0) * 4096 + (s[1] as int - 0x80) * 64 + (s[2] as int - 0x80), 3)
    else
      Rune((s[0] as int - 0xF0) * 262144 + (s[1] as int - 0x80) * 4096
           + (s[2] as int - 0x80) * 64 + (s[3] as int - 0x80), 4)
  }

  // ---------------------------------------------------------------------
  // Occurrences
  // ---------------------------------------------------------------------

  lemma Assoc(a: Bytes, b: Bytes, c: Bytes)
    ensures (a + b) + c == a + (b + c)
  {
  }

  predicate OccursAt(m: Bytes, s: Bytes, q: int) {
    0 <= q && q + |m| <= |s| && s[q..q + |m|] == m
  }

  ghost predicate Infix(m: Bytes, s: Bytes) {
    exists q :: OccursAt(m, s, q)
  }

  lemma OccursInTail(m: Bytes, s: Bytes, n: nat, q: int)
    requires n <= |s| && OccursAt(m, s[n..], q)
    ensures OccursAt(m, s, n + q)
  {
  }

  lemma InfixOfTail(m: Bytes, s: Bytes, n: nat)
    requires n <= |s| && Infix(m, s[n..])
    ensures Infix(m, s)
  {
    var q :| OccursAt(m, s[n..], q);
    OccursInTail(m, s, n, q);
  }

  lemma FirstByteOfInfix(m: Bytes, s: Bytes)
    requires m != [] && Infix(m, s)
    ensures m[0] in s
  {
  }

  lemma PrefixIsInfix(m: Bytes, s: Bytes)
    requires m <= s
    ensures Infix(m, s)
  {
    assert OccursAt(m, s, 0);
  }

  /** `x` ends in the first `k` bytes of `m`. */
  predicate EndsWithPrefix(x: Bytes, m: Bytes, k: int) {
    0 <= k <= |m| && k <= |x| && x[|x| - k..] == m[..k]
  }

  /** `x` ends in a nonempty strict prefix of `m`: more input may complete `m`. */
  ghost predicate EndsPartial(x: Bytes, m: Bytes) {
    exists k :: 1 <= k < |m| && EndsWithPrefix(x, m, k)
  }

  /** `o`, ending at position `e` of `t`, agrees with `t` wherever the two overlap. */
  ghost predicate OverlapsAt(o: Bytes, t: Bytes, e: int) {
    forall i {:trigger t[i]} :: 0 <= i < |t| && e - |o| <= i < e ==> t[i] == o[i - (e - |o|)]
  }

  /** Text `o` can stand in front of (or inside) the beginning of `m`, leaving a
      nonempty rest of `m` to be supplied after it. */
  ghost predicate Bridges(o: Bytes, m: Bytes) {
    exists k :: 0 < k < |m| && OverlapsAt(o, m, k)
  }

  /** Some occurrence of `t` could include part of (or surround) an inserted `o`. */
  ghost predicate Clashes(o: Bytes, t: Bytes) {
    exists e :: 0 < e < |t| + |o| && OverlapsAt(o, t, e)
  }

  // ---------------------------------------------------------------------
  // bytes.ReplaceAll
  // ---------------------------------------------------------------------

  /** `bytes.ReplaceAll` for an empty pattern: `rep` before the first rune and
      after every rune. */
  function InterleaveRunes(s: Bytes, rep: Bytes): Bytes {
    if s == [] then rep
    else
      var w := DecodeRune(s).width;
      rep + s[..w] + InterleaveRunes(s[w..], rep)
  }

  /** `bytes.ReplaceAll`: leftmost, non-overlapping occurrences, left to right. */
  function ReplaceAll(s: Bytes, old_: Bytes, rep: Bytes): Bytes
    decreases |s|
  {
    if old_ == [] then InterleaveRunes(s, rep)
    else if s == [] then []
    else if old_ <= s then rep + ReplaceAll(s[|old_|..], old_, rep)
    else [s[0]] + ReplaceAll(s[1..], old_, rep)
  }

  lemma EndsPartialOfSuffix(x: Bytes, i: nat, m: Bytes)
    requires i <= |x| && !EndsPartial(x, m)
    ensures !EndsPartial(x[i..], m)
  {
    forall k | 1 <= k < |m| && EndsWithPrefix(x[i..], m, k) ensures false {
      assert x[i..][|x| - i - k..] == x[|x| - k..];
      assert EndsWithPrefix(x, m, k);
    }
  }

  lemma NoMatchAcrossSafeCut(x: Bytes, y: Bytes, m: Bytes)
    requires x != [] && !EndsPartial(x, m) && !(m <= x)
    ensures !(m <= x + y)
  {
    if m <= x + y {
      if |x| < |m| {
        assert m[..|x|] == x;
        assert x[|x| - |x|..] == x;
        assert EndsWithPrefix(x, m, |x|);
      }
      assert false;
    }
  }

  /** Replacement distributes over a cut whose left side does not end inside the pattern. */
  lemma {:induction false} ReplaceDistributes(x: Bytes, y: Bytes, m: Bytes, o: Bytes)
    requires m != [] && !EndsPartial(x, m)
    ensures ReplaceAll(x + y, m, o) == ReplaceAll(x, m, o) + ReplaceAll(y, m, o)
    decreases |x|
  {
    hide EndsPartial;
    if x == [] {
      assert x + y == y;
    } else if m <= x {
      assert m <= x + y;
      assert (x + y)[|m|..] == x[|m|..] + y;
      EndsPartialOfSuffix(x, |m|, m);
      ReplaceDistributes(x[|m|..], y, m, o);
    } else {
      NoMatchAcrossSafeCut(x, y, m);
      assert (x + y)[1..] == x[1..] + y;
      EndsPartialOfSuffix(x, 1, m);
      ReplaceDistributes(x[1..], y, m, o);
    }
  }

  lemma EndsWithPrefixOverlaps(x: Bytes, m: Bytes, k: int)
    requires 0 <= k <= |m| && k <= |x|
    ensures EndsWithPrefix(x, m, k) <==> OverlapsAt(x, m, k)
  {
  }

  lemma OverlapOfSuffix(o: Bytes, r: Bytes, t: Bytes, k: int)
    requires OverlapsAt(o + r, t, k)
    ensures OverlapsAt(r, t, k)
    ensures OverlapsAt(o, t, k - |r|)
  {
  }

  lemma OverlapExtends(p: Bytes, y: Bytes, t: Bytes, k: int)
    requires 0 <= k <= |y| && OverlapsAt(y, t, k)
    ensures OverlapsAt(p + y, t, k)
  {
  }

  /** If the tail of a replaced text agrees with `t[..k]` and `o` cannot bridge into
      `t`, that tail was already the tail of the text before the replacement. */
  lemma {:induction false} OverlappingTailIsOld(x: Bytes, m: Bytes, o: Bytes, t: Bytes, k: nat)
    requires m != [] && 0 < k < |t| && !Bridges(o, t)
    requires OverlapsAt(ReplaceAll(x, m, o), t, k)
    ensures |ReplaceAll(x, m, o)| < k ==> ReplaceAll(x, m, o) == x
    ensures |ReplaceAll(x, m, o)| >= k ==> |x| >= k && OverlapsAt(x, t, k)
    decreases |x|
  {
    if x == [] {
    } else {
      var n := if m <= x then |m| else 1;
      var head := if m <= x then o else [x[0]];
      var y := x[n..];
      var ry := ReplaceAll(y, m, o);
      OverlapOfSuffix(head, ry, t, k);
      OverlappingTailIsOld(y, m, o, t, k);
      assert x == x[..n] + y;
      if |ry| >= k {
        OverlapExtends(x[..n], y, t, k);
      }
    }
  }

  /** Replacing `m` by a text that does not bridge into `t` cannot leave the text
      ending in part of `t` when it did not before. */
  lemma SafeAfterReplace(x: Bytes, m: Bytes, o: Bytes, t: Bytes)
    requires m != [] && !Bridges(o, t) && !EndsPartial(x, t)
    ensures !EndsPartial(ReplaceAll(x, m, o), t)
  {
    var r := ReplaceAll(x, m, o);
    if k :| 1 <= k < |t| && EndsWithPrefix(r, t, k) {
      EndsWithPrefixOverlaps(r, t, k);
      OverlappingTailIsOld(x, m, o, t, k);
      EndsWithPrefixOverlaps(x, t, k);
      assert false;
    }
  }

  lemma SplitShift(s: Bytes, n: nat)
    requires 0 < n <= |s|
    ensures s[1..][n - 1..] == s[n..]
    ensures [s[0]] + s[1..][..n - 1] == s[..n]
  {
  }

  /** No occurrence of `m` starts in the first `n` bytes. */
  ghost predicate NoneStartsBefore(m: Bytes, s: Bytes, n: int) {
    forall q :: 0 <= q < n ==> !OccursAt(m, s, q)
  }

  lemma NoneStartsInTail(m: Bytes, s: Bytes, n: nat)
    requires 0 < n <= |s| && NoneStartsBefore(m, s, n)
    ensures !(m <= s) && NoneStartsBefore(m, s[1..], n - 1)
  {
    assert !OccursAt(m, s, 0);
    forall q | 0 <= q < n - 1 ensures !OccursAt(m, s[1..], q) {
      if OccursAt(m, s[1..], q) {
        OccursInTail(m, s, 1, q);
      }
    }
  }

  /** No occurrence of the pattern starts in the first `n` bytes: they are kept. */
  lemma {:induction false} ReplaceSkips(s: Bytes, n: nat, m: Bytes, o: Bytes)
    requires m != [] && n <= |s| && NoneStartsBefore(m, s, n)
    ensures ReplaceAll(s, m, o) == s[..n] + ReplaceAll(s[n..], m, o)
    decreases n
  {
    if n == 0 {
      assert s[0..] == s;
    } else {
      hide OccursAt, NoneStartsBefore;
      NoneStartsInTail(m, s, n);
      ReplaceSkips(s[1..], n - 1, m, o);
      SplitShift(s, n);
      Assoc([s[0]], s[1..][..n - 1], ReplaceAll(s[n..], m, o));
    }
  }

  lemma ReplaceAbsent(s: Bytes, m: Bytes, o: Bytes)
    requires m != [] && !Infix(m, s)
    ensures ReplaceAll(s, m, o) == s
  {
    ReplaceSkips(s, |s|, m, o);
    assert ReplaceAll(s[|s|..], m, o) == [];
  }

  /** If `o` clashes with `t` nowhere, a prefix of a replaced text that completes an
      already begun `t` is a prefix of the text before the replacement. */
  lemma {:induction false} PrefixIsOld(y: Bytes, m: Bytes, o: Bytes, t: Bytes, i: nat)
    requires m != [] && 0 < i <= |t| && !Clashes(o, t)
    requires t[i..] <= ReplaceAll(y, m, o)
    ensures t[i..] <= y
    decreases |y|
  {
    if i == |t| {
    } else if m <= y && y != [] {
      var e := i + |o|;
      var r := ReplaceAll(y, m, o);
      assert r[..|o|] == o;
      forall j {:trigger t[j]} | 0 <= j < |t| && e - |o| <= j < e ensures t[j] == o[j - (e - |o|)] {
        assert t[i..][j - i] == r[j - i];
      }
      assert OverlapsAt(o, t, e);
      assert false;
    } else if y != [] {
      var r := ReplaceAll(y, m, o);
      assert t[i] == t[i..][0] == r[0] == y[0];
      assert t[i + 1..] == t[i..][1..] <= r[1..] == ReplaceAll(y[1..], m, o);
      PrefixIsOld(y[1..], m, o, t, i + 1);
      assert t[i..] == [t[i]] + t[i + 1..];
    }
  }

  lemma SliceBehind(a: Bytes, b: Bytes, q: nat, n: nat)
    requires |a| <= q && q + n <= |a| + |b|
    ensures (a + b)[q..q + n] == b[q - |a|..q - |a| + n]
  {
  }

  /** Every occurrence of `t` in a replaced text was there before the replacement,
      and the pattern itself is gone. */
  lemma {:induction false} ReplaceCreatesNothing(x: Bytes, m: Bytes, o: Bytes, t: Bytes, q: int)
    requires m != [] && t != [] && !Clashes(o, t)
    requires OccursAt(t, ReplaceAll(x, m, o), q)
    ensures t != m && Infix(t, x)
    decreases |x|
  {
    var r := ReplaceAll(x, m, o);
    if x == [] {
      assert false;
    } else if m <= x {
      var y := x[|m|..];
      assert r == o + ReplaceAll(y, m, o);
      if q >= |o| {
        SliceBehind(o, ReplaceAll(y, m, o), q, |t|);
        ReplaceCreatesNothing(y, m, o, t, q - |o|);
        InfixOfTail(t, x, |m|);
      } else {
        var e := |o| - q;
        forall j {:trigger t[j]} | 0 <= j < |t| && e - |o| <= j < e ensures t[j] == o[j - (e - |o|)] {
          assert t[j] == r[q..q + |t|][j] == r[q + j];
        }
        assert OverlapsAt(o, t, e);
        assert false;
      }
    } else {
      var y := x[1..];
      assert r == [x[0]] + ReplaceAll(y, m, o);
      if q > 0 {
        SliceBehind([x[0]], ReplaceAll(y, m, o), q, |t|);
        ReplaceCreatesNothing(y, m, o, t, q - 1);
        InfixOfTail(t, x, 1);
      } else {
        assert t == r[0..|t|];
        assert t[1..] == ReplaceAll(y, m, o)[..|t| - 1];
        PrefixIsOld(y, m, o, t, 1);
        assert t == [x[0]] + t[1..];
        assert t <= x;
        PrefixIsInfix(t, x);
      }
    }
  }
}
