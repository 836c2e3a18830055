/** Finding the API key in an ingest body, `processing/internal/middleware/ingest_ratelimit.go`.

    The body is read token by token. A token stream stands for what the decoder can still
    deliver: a malformed or truncated body is a stream that ends early. Objects and arrays are
    those of sections 4 and 5 of RFC 8259. */
module JsonTokens {
  import opened Options

  datatype Token = OpenObject | CloseObject | OpenArray | CloseArray | Text(text: string) | Scalar

  /** A JSON value; `Other` is a number, a boolean or null. */
  datatype Value = String(text: string) | Other | Array(elements: seq<Value>) | Object(members: seq<Member>)
  datatype Member = Member(key: string, value: Value)

  function Tokens(v: Value): (ts: seq<Token>)
    ensures ts != [] && !IsClose(ts[0])
    decreases v, 1
  {
    match v
    case String(s) => [Text(s)]
    case Other => [Scalar]
    case Array(elements) => [OpenArray] + ElementTokens(elements) + [CloseArray]
    case Object(members) => [OpenObject] + MemberTokens(members) + [CloseObject]
  }

  function ElementTokens(vs: seq<Value>): seq<Token>
    decreases vs, 0
  {
    if vs == [] then [] else Tokens(vs[0]) + ElementTokens(vs[1..])
  }

  function MemberTokens(ms: seq<Member>): seq<Token>
    decreases ms, 0
  {
    if ms == [] then [] else [Text(ms[0].key)] + Tokens(ms[0].value) + MemberTokens(ms[1..])
  }

  predicate IsClose(t: Token) {
    t.CloseObject? || t.CloseArray?
  }

  // ---------------------------------------------------------------------
  // What the decoder delivers
  // ---------------------------------------------------------------------

  /** `junk`: where the stream ends, something that is not a closing bracket follows, which no
      call of `Token` can deliver. */
  predicate MoreAt(ts: seq<Token>, junk: bool, p: nat) {
    if p < |ts| then !IsClose(ts[p]) else junk
  }

  /** The position behind the value that starts at `p`; `None` if the stream ends inside it. */
  function Skip(ts: seq<Token>, junk: bool, p: nat): (r: Option<nat>)
    ensures r.Some? ==> p < r.value <= |ts|
    decreases |ts| - p, 0
  {
    if p >= |ts| then None
    else if ts[p].OpenObject? then SkipMembers(ts, junk, p + 1)
    else if ts[p].OpenArray? then SkipElements(ts, junk, p + 1)
    else Some(p + 1)
  }

  /** The rest of an object, its closing bracket included. */
  function SkipMembers(ts: seq<Token>, junk: bool, p: nat): (r: Option<nat>)
    ensures r.Some? ==> p < r.value <= |ts|
    decreases |ts| - p, 1
  {
    if p >= |ts| then None
    else if !MoreAt(ts, junk, p) then Some(p + 1)
    else
      var next := Skip(ts, junk, p + 1);
      if next.None? then None else SkipMembers(ts, junk, next.value)
  }

  /** The rest of an array, its closing bracket included. */
  function SkipElements(ts: seq<Token>, junk: bool, p: nat): (r: Option<nat>)
    ensures r.Some? ==> p < r.value <= |ts|
    decreases |ts| - p, 1
  {
    if p >= |ts| then None
    else if !MoreAt(ts, junk, p) then Some(p + 1)
    else
      var next := Skip(ts, junk, p);
      if next.None? then None else SkipElements(ts, junk, next.value)
  }

  const API_KEY_ID: string := "api_key_id"

  /** The search from `p`, which is behind the opening bracket or behind a member. */
  function Search(ts: seq<Token>, junk: bool, p: nat): string
    decreases |ts| - p
  {
    if p >= |ts| || !MoreAt(ts, junk, p) || !ts[p].Text? then ""
    else if ts[p].text == API_KEY_ID then
      if p + 1 < |ts| && ts[p + 1].Text? then ts[p + 1].text else ""
    else
      var next := Skip(ts, junk, p + 1);
      if next.None? then "" else Search(ts, junk, next.value)
  }

  function Extracted(ts: seq<Token>, junk: bool): string {
    if ts != [] && ts[0].OpenObject? then Search(ts, junk, 1) else ""
  }

  // ---------------------------------------------------------------------
  // The code
  // ---------------------------------------------------------------------

  class Decoder {
    const tokens: seq<Token>
    const junk: bool
    var pos: nat

    constructor (tokens: seq<Token>, junk: bool)
      ensures this.tokens == tokens && this.junk == junk && pos == 0
    {
      this.tokens, this.junk, pos := tokens, junk, 0;
    }

    predicate More()
      reads this
    {
      MoreAt(tokens, junk, pos)
    }

    method Next() returns (tok: Option<Token>)
      modifies this
      ensures tok == (if old(pos) < |tokens| then Some(tokens[old(pos)]) else None)
      ensures pos == (if tok.Some? then old(pos) + 1 else old(pos))
    {
      if pos >= |tokens| { return None; }
      tok := Some(tokens[pos]);
      pos := pos + 1;
    }
  }

  method SkipJSONValue(dec: Decoder) returns (ok: bool)
    modifies dec
    ensures var r := Skip(dec.tokens, dec.junk, old(dec.pos)); ok == r.Some? && (ok ==> dec.pos == r.value)
    decreases |dec.tokens| - dec.pos
  {
    ghost var start := dec.pos;
    var tok := dec.Next();
    if tok.None? { return false; }
    if tok.value.OpenObject? {
      while dec.More()
        invariant start < dec.pos
        invariant SkipMembers(dec.tokens, dec.junk, dec.pos) == Skip(dec.tokens, dec.junk, start)
        decreases |dec.tokens| - dec.pos
      {
        var key := dec.Next();
        if key.None? { return false; }
        var skipped := SkipJSONValue(dec);
        if !skipped { return false; }
      }
      var closing := dec.Next();
      if closing.None? { return false; }
    } else if tok.value.OpenArray? {
      while dec.More()
        invariant start < dec.pos
        invariant SkipElements(dec.tokens, dec.junk, dec.pos) == Skip(dec.tokens, dec.junk, start)
        decreases |dec.tokens| - dec.pos
      {
        var skipped := SkipJSONValue(dec);
        if !skipped { return false; }
      }
      var closing := dec.Next();
      if closing.None? { return false; }
    }
    ok := true;
  }

  /** The API key of a body, given the tokens its decoder delivers. */
  method ExtractAPIKeyID(tokens: seq<Token>, junk: bool) returns (id: string)
    ensures id == Extracted(tokens, junk)
  {
    var dec := new Decoder(tokens, junk);
    var tok := dec.Next();
    if tok.None? || !tok.value.OpenObject? { return ""; }
    while dec.More()
      invariant dec.tokens == tokens && dec.junk == junk
      invariant Search(tokens, junk, dec.pos) == Extracted(tokens, junk)
      decreases |tokens| - dec.pos
    {
      var key := dec.Next();
      if key.None? || !key.value.Text? { return ""; }
      if key.value.text == API_KEY_ID {
        var value := dec.Next();
        if value.Some? && value.value.Text? { return value.value.text; }
        return "";
      }
      var skipped := SkipJSONValue(dec);
      if !skipped { return ""; }
    }
    return "";
  }

  // ---------------------------------------------------------------------
  // On the tokens of JSON values, complete or cut short
  // ---------------------------------------------------------------------

  /** `full` continues with `part` at `p`. */
  predicate Holds(full: seq<Token>, p: nat, part: seq<Token>) {
    p + |part| <= |full| && full[p..p + |part|] == part
  }

  lemma HoldsParts(full: seq<Token>, p: nat, a: seq<Token>, b: seq<Token>)
    requires Holds(full, p, a + b)
    ensures Holds(full, p, a) && Holds(full, p + |a|, b)
  {
    assert full[p..p + |a|] == (a + b)[..|a|];
    assert full[p + |a|..p + |a| + |b|] == (a + b)[|a|..];
  }

  lemma HoldsAt(full: seq<Token>, p: nat, part: seq<Token>)
    requires Holds(full, p, part) && part != []
    ensures p < |full| && full[p] == part[0]
  {
  }

  /** What skipping a part of known length does to a stream that may be cut at `n`. */
  function Through(n: nat, end: nat): Option<nat> {
    if end <= n then Some(end) else None
  }

  /** `skipJSONValue` consumes exactly the tokens of one value, whatever its nesting and whatever
      follows, and fails exactly when the stream is cut inside it. */
  lemma {:induction false} SkipOne(v: Value, full: seq<Token>, n: nat, junk: bool, p: nat)
    requires p <= n <= |full| && Holds(full, p, Tokens(v))
    ensures Skip(full[..n], junk, p) == Through(n, p + |Tokens(v)|)
    decreases v, 1
  {
    hide Holds;
    HoldsAt(full, p, Tokens(v));
    if p < n {
      match v
      case String(_) =>
      case Other =>
      case Array(elements) =>
        assert Tokens(v) == [OpenArray] + (ElementTokens(elements) + [CloseArray]);
        HoldsParts(full, p, [OpenArray], ElementTokens(elements) + [CloseArray]);
        SkipAllElements(elements, full, n, junk, p + 1);
      case Object(members) =>
        assert Tokens(v) == [OpenObject] + (MemberTokens(members) + [CloseObject]);
        HoldsParts(full, p, [OpenObject], MemberTokens(members) + [CloseObject]);
        SkipAllMembers(members, full, n, junk, p + 1);
    }
  }

  lemma {:induction false} SkipAllElements(vs: seq<Value>, full: seq<Token>, n: nat, junk: bool, p: nat)
    requires p <= n <= |full| && Holds(full, p, ElementTokens(vs) + [CloseArray])
    ensures SkipElements(full[..n], junk, p) == Through(n, p + |ElementTokens(vs)| + 1)
    decreases vs, 0
  {
    hide Holds, Tokens;
    if vs == [] {
      HoldsAt(full, p, ElementTokens(vs) + [CloseArray]);
    } else {
      var first, rest := Tokens(vs[0]), ElementTokens(vs[1..]) + [CloseArray];
      assert ElementTokens(vs) + [CloseArray] == first + rest;
      HoldsParts(full, p, first, rest);
      HoldsAt(full, p, first);
      SkipOne(vs[0], full, n, junk, p);
      if p + |first| <= n { SkipAllElements(vs[1..], full, n, junk, p + |first|); }
    }
  }

  lemma {:induction false} SkipAllMembers(ms: seq<Member>, full: seq<Token>, n: nat, junk: bool, p: nat)
    requires p <= n <= |full| && Holds(full, p, MemberTokens(ms) + [CloseObject])
    ensures SkipMembers(full[..n], junk, p) == Through(n, p + |MemberTokens(ms)| + 1)
    decreases ms, 0
  {
    hide Holds, Tokens;
    if ms == [] {
      HoldsAt(full, p, MemberTokens(ms) + [CloseObject]);
    } else {
      var first, rest := Tokens(ms[0].value), MemberTokens(ms[1..]) + [CloseObject];
      MemberParts(ms);
      ThreeParts(full, p, Text(ms[0].key), first, rest);
      if p < n {
        SkipOne(ms[0].value, full, n, junk, p + 1);
        if p + 1 + |first| <= n { SkipAllMembers(ms[1..], full, n, junk, p + 1 + |first|); }
      }
    }
  }

  lemma MemberParts(ms: seq<Member>)
    requires ms != []
    ensures MemberTokens(ms) + [CloseObject]
            == [Text(ms[0].key)] + (Tokens(ms[0].value) + (MemberTokens(ms[1..]) + [CloseObject]))
    ensures |MemberTokens(ms)| == 1 + |Tokens(ms[0].value)| + |MemberTokens(ms[1..])|
  {
  }

  /** The key, the value and the rest of the members of an object. */
  lemma ThreeParts(full: seq<Token>, p: nat, key: Token, value: seq<Token>, rest: seq<Token>)
    requires Holds(full, p, [key] + (value + rest))
    ensures p < |full| && full[p] == key
    ensures Holds(full, p + 1, value) && Holds(full, p + 1 + |value|, rest)
  {
    hide Holds;
    HoldsParts(full, p, [key], value + rest);
    HoldsAt(full, p, [key]);
    HoldsParts(full, p + 1, value, rest);
  }

  // ---------------------------------------------------------------------
  // The search
  // ---------------------------------------------------------------------

  /** The first member with the key, as a document says it; "" when it is no string or missing. */
  function KeyOf(ms: seq<Member>): string {
    if ms == [] then ""
    else if ms[0].key == "api_key_id" then (if ms[0].value.String? then ms[0].value.text else "")
    else KeyOf(ms[1..])
  }

  /** How many tokens behind the opening bracket are read to know it. */
  function TokensRead(ms: seq<Member>): nat {
    if ms == [] then 0
    else if ms[0].key == API_KEY_ID then 2
    else 1 + |Tokens(ms[0].value)| + TokensRead(ms[1..])
  }

  lemma {:induction false} SearchFinds(ms: seq<Member>, full: seq<Token>, n: nat, junk: bool, p: nat)
    requires p <= n <= |full| && Holds(full, p, MemberTokens(ms) + [CloseObject])
    ensures Search(full[..n], junk, p) == if p + TokensRead(ms) <= n then KeyOf(ms) else ""
    decreases ms
  {
    hide Holds, Skip;
    if ms == [] {
      HoldsAt(full, p, MemberTokens(ms) + [CloseObject]);
    } else {
      var value := Tokens(ms[0].value);
      MemberParts(ms);
      ThreeParts(full, p, Text(ms[0].key), value, MemberTokens(ms[1..]) + [CloseObject]);
      HoldsAt(full, p + 1, value);
      if p < n && ms[0].key != API_KEY_ID {
        SkipOne(ms[0].value, full, n, junk, p + 1);
        if p + 1 + |value| <= n { SearchFinds(ms[1..], full, n, junk, p + 1 + |value|); }
      }
    }
  }

  /** The key read from the tokens of an object is its first top-level `api_key_id` if that is a
      string and "" otherwise - never one nested inside another member, whatever follows the
      object - and a body that breaks off yields it exactly when it got that far. */
  lemma ExtractsTopLevelKey(ms: seq<Member>, rest: seq<Token>, n: nat, junk: bool)
    requires n <= |Tokens(Object(ms)) + rest|
    ensures Extracted((Tokens(Object(ms)) + rest)[..n], junk) == if 1 + TokensRead(ms) <= n then KeyOf(ms) else ""
  {
    var full := Tokens(Object(ms)) + rest;
    var tail := MemberTokens(ms) + [CloseObject];
    assert Holds(full, 0, [OpenObject] + tail);
    HoldsParts(full, 0, [OpenObject], tail);
    if n >= 1 { SearchFinds(ms, full, n, junk, 1); }
  }

  lemma {:induction false} ReadsWithinObject(ms: seq<Member>)
    ensures TokensRead(ms) <= |MemberTokens(ms)|
  {
    if ms == [] {
    } else {
      ReadsWithinObject(ms[1..]);
    }
  }

  /** On a complete body: the key, for every object; nothing, for every other value. */
  lemma ExtractsFromWholeBody(v: Value, rest: seq<Token>, junk: bool)
    ensures Extracted(Tokens(v) + rest, junk) == if v.Object? then KeyOf(v.members) else ""
  {
    if v.Object? {
      var full := Tokens(v) + rest;
      ReadsWithinObject(v.members);
      ExtractsTopLevelKey(v.members, rest, |full|, junk);
      assert full[..|full|] == full;
    }
  }
}
