/** The Windows client's growable buffer, its JSON string escaping, and its minimal JSON string reader. */
module JsonText {
  import opened Bytes

  const Quote: byte := 34
  const Backslash: byte := 92
  const Newline: byte := 10
  const Return: byte := 13
  const Tab: byte := 9
  const LetterN: byte := 110
  const LetterR: byte := 114
  const LetterT: byte := 116
  const LetterU: byte := 117
  const Digit0: byte := 48
  const LetterA: byte := 97
  const Colon: byte := 58
  const Space: byte := 32

  // ---------------------------------------------------------------- the buffer

  class Buf {
    var data: array?<byte>
    var len: nat
    var cap: nat

    /** Room for the terminator is always there, and so is the terminator. */
    ghost predicate Valid()
      reads this, data
    {
      if data == null then len == 0 && cap == 0
      else data.Length == cap && len + 1 <= cap && data[len] == 0
    }

    ghost function Contents(): seq<byte>
      requires Valid()
      reads this, data
    {
      if data == null then [] else data[..len]
    }

    constructor ()
      ensures Valid() && data == null && Contents() == []
    {
      data, len, cap := null, 0, 0;
    }

    /** buf_reserve; the allocation may fail. */
    method Reserve(extra: nat, allocFails: bool) returns (ok: bool)
      requires Valid()
      modifies this`data, this`cap
      ensures Valid() && Contents() == old(Contents())
      ensures ok ==> data != null && len + extra + 1 <= cap && (data == old(data) || fresh(data))
      ensures !ok ==> allocFails && data == old(data)
    {
      if len + extra + 1 <= cap { return true; }
      var ncap: nat := if cap != 0 then cap else 256;
      while len + extra + 1 > ncap
        invariant ncap > 0
        decreases len + extra + 1 - ncap
      {
        ncap := ncap * 2;
      }
      if allocFails { return false; }
      var nd := new byte[ncap](i requires 0 <= i < ncap reads this, if data == null then {} else {data}
                                 => if data != null && i < data.Length then data[i] else 0);
      assert data != null ==> nd[..len] == data[..len];
      data, cap, ok := nd, ncap, true;
    }

    /** buf_append. */
    method Append(p: seq<byte>, allocFails: bool) returns (ok: bool)
      requires Valid()
      modifies this, data
      ensures Valid() && (data == old(data) || fresh(data))
      ensures ok ==> Contents() == old(Contents()) + p
      ensures !ok ==> allocFails && Contents() == old(Contents())
    {
      ok := Reserve(|p|, allocFails);
      if !ok { return; }
      ghost var before := Contents();
      forall i | 0 <= i < |p| { data[len + i] := p[i]; }
      assert data[..len + |p|] == before + p;
      len := len + |p|;
      data[len] := 0;
    }
  }

  // ---------------------------------------------------------------- escaping

  function HexDigit(v: int): byte
    requires 0 <= v < 16
  {
    if v < 10 then (48 + v) as byte else (97 + v - 10) as byte
  }

  function EscapeByte(c: byte): (e: seq<byte>)
    ensures e != [] && 0 !in e
    requires c != 0
  {
    if c == Quote then [Backslash, Quote]
    else if c == Backslash then [Backslash, Backslash]
    else if c == Newline then [Backslash, LetterN]
    else if c == Return then [Backslash, LetterR]
    else if c == Tab then [Backslash, LetterT]
    else if c < 0x20 then [Backslash, LetterU, Digit0, Digit0, HexDigit(c as int / 16), HexDigit(c as int % 16)]
    else [c]
  }

  function Escape(s: seq<byte>): seq<byte>
    requires 0 !in s
  {
    if s == [] then [] else EscapeByte(s[0]) + Escape(s[1..])
  }

  lemma {:induction false} EscapeSnoc(s: seq<byte>, c: byte)
    requires 0 !in s && c != 0
    ensures 0 !in s + [c] && Escape(s + [c]) == Escape(s) + EscapeByte(c)
  {
    if s != [] {
      EscapeSnoc(s[1..], c);
      assert (s + [c])[1..] == s[1..] + [c];
    }
  }

  lemma EscapeNext(base: seq<byte>, s: seq<byte>, k: nat)
    requires 0 !in s && k < |s|
    ensures base + Escape(s[..k + 1]) == (base + Escape(s[..k])) + EscapeByte(s[k])
  {
    assert s[..k + 1] == s[..k] + [s[k]];
    EscapeSnoc(s[..k], s[k]);
  }

  /** buf_append_json_escaped: the escaped text, or a failed allocation part way through it. */
  method AppendJsonEscaped(b: Buf, s: seq<byte>, failAt: nat -> bool) returns (ok: bool)
    requires b.Valid() && 0 !in s
    modifies b, b.data
    ensures b.Valid() && (b.data == old(b.data) || fresh(b.data))
    ensures ok ==> b.Contents() == old(b.Contents()) + Escape(s)
    ensures !ok ==> exists k: nat :: k < |s| && failAt(k) && b.Contents() == old(b.Contents()) + Escape(s[..k])
  {
    ghost var base := b.Contents();
    for k := 0 to |s|
      invariant b.Valid() && (b.data == old(b.data) || fresh(b.data))
      invariant b.Contents() == base + Escape(s[..k])
    {
      EscapeNext(base, s, k);
      ok := b.Append(EscapeByte(s[k]), failAt(k));
      if !ok { return; }
    }
    assert s[..|s|] == s;
    ok := true;
  }

  // ---------------------------------------------------------------- reading a string back

  /** The value a hex digit adds; other characters add nothing. */
  function HexValue(h: byte): nat {
    if Digit0 <= h <= 57 then h as int - 48
    else if LetterA <= h <= 102 then h as int - 97 + 10
    else if 65 <= h <= 70 then h as int - 65 + 10
    else 0
  }

  /** The UTF-8 bytes of a \u escape's value. */
  function Utf8(v: nat): (u: seq<byte>)
    requires v < 0x1_0000
    ensures u != []
  {
    if v < 0x80 then [v as byte]
    else if v < 0x800 then [(0xC0 + v / 64) as byte, (0x80 + v % 64) as byte]
    else [(0xE0 + v / 4096) as byte, (0x80 + v / 64 % 64) as byte, (0x80 + v % 64) as byte]
  }

  /** One turn of the decoding loop at p: where it goes on, and what it emits as one unit. */
  function Turn(json: seq<byte>, p: nat): (r: (nat, seq<byte>))
    requires p < |json|
    ensures p < r.0 <= |json| && r.1 != []
  {
    var c := json[p];
    if c != Backslash || p + 1 >= |json| then (p + 1, [c])
    else
      var e, q := json[p + 1], p + 2;
      if e == LetterN then (q, [Newline])
      else if e == LetterR then (q, [Return])
      else if e == LetterT then (q, [Tab])
      else if e == LetterU && q + 4 <= |json| then
        (q + 4, Utf8(((HexValue(json[q]) * 16 + HexValue(json[q + 1])) * 16 + HexValue(json[q + 2])) * 16
                     + HexValue(json[q + 3])))
      else (q, [e])
  }

  /** Everything the loop emits from p to the closing quote or the end of the text. */
  function Units(json: seq<byte>, p: nat): seq<seq<byte>>
    requires p <= |json|
    decreases |json| - p
  {
    if p == |json| || json[p] == Quote then [] else [Turn(json, p).1] + Units(json, Turn(json, p).0)
  }

  /** Units go out whole while they fit below the terminator's place; one that does not is dropped. */
  function Fitted(out: seq<byte>, units: seq<seq<byte>>, outsz: nat): seq<byte>
    decreases |units|
  {
    if units == [] then out
    else Fitted(if |out| + |units[0]| < outsz then out + units[0] else out, units[1..], outsz)
  }

  /** The loop of json_find_string from the opening quote on. */
  method DecodeString(json: seq<byte>, start: nat, out: array<byte>) returns (o: nat)
    requires start <= |json| && out.Length > 0
    modifies out
    ensures o < out.Length && out[o] == 0
    ensures out[..o] == Fitted([], Units(json, start), out.Length)
  {
    var p := start;
    o := 0;
    while p < |json| && json[p] != Quote
      invariant p <= |json| && o < out.Length
      invariant Fitted(out[..o], Units(json, p), out.Length) == Fitted([], Units(json, start), out.Length)
      decreases |json| - p
    {
      var (next, unit) := Turn(json, p);
      ghost var before := out[..o];
      assert Units(json, p)[1..] == Units(json, next);
      if o + |unit| < out.Length {
        forall i | 0 <= i < |unit| { out[o + i] := unit[i]; }
        o := o + |unit|;
        assert out[..o] == before + unit;
      }
      p := next;
    }
    out[o] := 0;
  }

  predicate IsBlank(c: byte) {
    c == Space || c == Tab || c == Return || c == Newline
  }

  function SkipBlanks(json: seq<byte>, p: nat): (q: nat)
    requires p <= |json|
    ensures p <= q <= |json|
    decreases |json| - p
  {
    if p < |json| && IsBlank(json[p]) then SkipBlanks(json, p + 1) else p
  }

  predicate OccursAt(json: seq<byte>, needle: seq<byte>, i: nat) {
    i + |needle| <= |json| && json[i .. i + |needle|] == needle
  }

  /** The first occurrence at or after i. */
  function FirstFrom(json: seq<byte>, needle: seq<byte>, i: nat): (r: Option<nat>)
    ensures r.Some? ==> r.value >= i && OccursAt(json, needle, r.value)
    ensures forall k: nat | i <= k && (r.Some? ==> k < r.value) :: !OccursAt(json, needle, k)
    decreases |json| - i
  {
    if i + |needle| > |json| then None
    else if OccursAt(json, needle, i) then Some(i)
    else FirstFrom(json, needle, i + 1)
  }

  /** strstr. */
  method Find(json: seq<byte>, needle: seq<byte>) returns (r: Option<nat>)
    ensures r == FirstFrom(json, needle, 0)
  {
    var i: nat := 0;
    while i + |needle| <= |json|
      invariant FirstFrom(json, needle, i) == FirstFrom(json, needle, 0)
    {
      if json[i .. i + |needle|] == needle { return Some(i); }
      i := i + 1;
    }
    r := None;
  }

  /** find_key: where the value after the first occurrence of the quoted key starts. */
  function ValueOf(json: seq<byte>, key: seq<byte>): (r: Option<nat>)
    ensures r.Some? ==> r.value <= |json|
  {
    if |key| + 3 >= MaxNeedle then None
    else match FirstFrom(json, [Quote] + key + [Quote], 0)
      case None => None
      case Some(i) => AfterKey(json, i + |key| + 2)
  }

  /** Blanks, a colon, blanks. */
  function AfterKey(json: seq<byte>, p: nat): (r: Option<nat>)
    requires p <= |json|
    ensures r.Some? ==> r.value <= |json|
  {
    var q := SkipBlanks(json, p);
    if q < |json| && json[q] == Colon then Some(SkipBlanks(json, q + 1)) else None
  }

  /** From p on stands the escaped text s and a quote. */
  predicate HoldsText(json: seq<byte>, p: nat, s: seq<byte>) {
    0 !in s && p <= |json| && Escape(s) + [Quote] <= json[p..]
  }

  // The size of find_key's needle buffer.
  const MaxNeedle := 128

  /** find_key. */
  method FindKey(json: seq<byte>, key: seq<byte>) returns (r: Option<nat>)
    ensures r == ValueOf(json, key)
  {
    if |key| + 3 >= MaxNeedle { return None; }
    var needle := [Quote] + key + [Quote];
    var at := Find(json, needle);
    if at == None { return None; }
    r := AfterKey(json, at.value + |needle|);
  }

  /** The loop, with what it means for a text that was escaped. */
  method DecodeValue(json: seq<byte>, start: nat, out: array<byte>, ghost s: seq<byte>) returns (o: nat)
    requires start <= |json| && out.Length > 0
    modifies out
    ensures o < out.Length && out[o] == 0
    ensures out[..o] == Fitted([], Units(json, start), out.Length)
    ensures HoldsText(json, start, s) ==> out[..o] == s[..Min(|s|, out.Length - 1)]
  {
    o := DecodeString(json, start, out);
    if HoldsText(json, start, s) { EscapeRoundTrip(json, start, s, out.Length); }
  }

  /**
   json_find_string: if a string follows the first occurrence of the quoted key and its colon,
   decodes that string.  If it holds a text s escaped, the result is s, cut only by the room.
   */
  method JsonFindString(json: seq<byte>, key: seq<byte>, out: array<byte>, ghost s: seq<byte>)
    returns (found: bool, o: nat)
    requires 0 !in json && 0 !in key && out.Length > 0
    modifies out
    ensures var value := ValueOf(json, key);
            && (found <==> value.Some? && value.value < |json| && json[value.value] == Quote)
            && (found ==> o < out.Length && out[o] == 0
                          && out[..o] == Fitted([], Units(json, value.value + 1), out.Length))
            && (found && HoldsText(json, value.value + 1, s) ==> out[..o] == s[..Min(|s|, out.Length - 1)])
  {
    found, o := false, 0;
    var value := FindKey(json, key);
    if value == None || value.value >= |json| || json[value.value] != Quote { return; }
    o := DecodeValue(json, value.value + 1, out, s);
    found := true;
  }

  // ---------------------------------------------------------------- the round trip

  function Singles(s: seq<byte>): seq<seq<byte>> {
    if s == [] then [] else [[s[0]]] + Singles(s[1..])
  }

  predicate IsControl(c: byte) {
    0 < c < 0x20 && c != Newline && c != Return && c != Tab
  }

  /** A \u00xx escape. */
  lemma ControlTurn(json: seq<byte>, p: nat, c: byte)
    requires IsControl(c) && p <= |json| && EscapeByte(c) <= json[p..]
    ensures p < |json| && json[p] != Quote && Turn(json, p) == (p + 6, [c]) && |EscapeByte(c)| == 6
  {
    var e := EscapeByte(c);
    assert forall k | 0 <= k < 6 :: json[p + k] == e[k];
    var hi, lo := c as int / 16, c as int % 16;
    HexRoundTrip(hi);
    HexRoundTrip(lo);
    assert ((HexValue(json[p + 2]) * 16 + HexValue(json[p + 3])) * 16 + HexValue(json[p + 4])) * 16
           + HexValue(json[p + 5])
        == hi * 16 + lo == c as int;
  }

  /** One escaped byte, wherever it stands, is one turn of the loop that emits exactly that byte. */
  lemma TurnUndoesEscape(json: seq<byte>, p: nat, c: byte)
    requires c != 0 && p <= |json| && EscapeByte(c) <= json[p..]
    ensures p < |json| && json[p] != Quote && Turn(json, p) == (p + |EscapeByte(c)|, [c])
  {
    if IsControl(c) {
      ControlTurn(json, p, c);
    } else {
      var e := EscapeByte(c);
      assert forall k | 0 <= k < |e| :: json[p + k] == e[k];
    }
  }

  lemma HexRoundTrip(v: int)
    requires 0 <= v < 16
    ensures HexValue(HexDigit(v)) == v
  {
  }

  lemma UnitsStep(json: seq<byte>, p: nat, next: nat, c: byte)
    requires p < |json| && json[p] != Quote && Turn(json, p) == (next, [c])
    ensures Units(json, p) == [[c]] + Units(json, next)
  {
  }

  /** What an escaped text closed by a quote is read as: its bytes, one by one. */
  lemma {:induction false} UnitsOfEscape(json: seq<byte>, p: nat, s: seq<byte>)
    requires 0 !in s && p <= |json| && Escape(s) + [Quote] <= json[p..]
    ensures Units(json, p) == Singles(s)
    decreases |s|
  {
    if s == [] {
      UnitsAtQuote(json, p);
    } else {
      var e := EscapeByte(s[0]);
      assert Escape(s) + [Quote] == e + (Escape(s[1..]) + [Quote]);
      PrefixSplits(e, Escape(s[1..]) + [Quote], json, p);
      TurnUndoesEscape(json, p, s[0]);
      UnitsStep(json, p, p + |e|, s[0]);
      UnitsOfEscape(json, p + |e|, s[1..]);
    }
  }

  lemma UnitsAtQuote(json: seq<byte>, p: nat)
    requires p <= |json| && [Quote] <= json[p..]
    ensures Units(json, p) == []
  {
    assert json[p..][0] == Quote;
  }

  lemma PrefixSplits(e: seq<byte>, rest: seq<byte>, json: seq<byte>, p: nat)
    requires p <= |json| && e + rest <= json[p..]
    ensures e <= json[p..] && p + |e| <= |json| && rest <= json[p + |e| ..]
  {
    assert json[p..][..|e|] == e;
    assert json[p + |e| ..] == json[p..][|e|..];
  }

  /** Single bytes go out until the buffer is full but for the terminator. */
  lemma {:induction false} FittedSingles(out: seq<byte>, s: seq<byte>, outsz: nat)
    requires |out| < outsz
    ensures Fitted(out, Singles(s), outsz) == out + s[..Min(|s|, outsz - 1 - |out|)]
    decreases |s|
  {
    if s != [] {
      var units := Singles(s);
      assert units[0] == [s[0]] && units[1..] == Singles(s[1..]);
      if |out| + 1 < outsz {
        FittedSingles(out + [s[0]], s[1..], outsz);
      } else {
        FittedSingles(out, s[1..], outsz);
      }
    }
  }

  lemma FittedFromEmpty(s: seq<byte>, outsz: nat)
    requires outsz > 0
    ensures Fitted([], Singles(s), outsz) == s[..Min(|s|, outsz - 1)]
    ensures |s| < outsz ==> s[..Min(|s|, outsz - 1)] == s
  {
    FittedSingles([], s, outsz);
  }

  /**
   Escaping then reading back: for every NUL-free text and every buffer size, what comes out of a
   string value holding the escaped text is the text, cut only by the room before the terminator.
   */
  lemma EscapeRoundTrip(json: seq<byte>, start: nat, s: seq<byte>, outsz: nat)
    requires 0 !in s && start <= |json| && Escape(s) + [Quote] <= json[start..] && outsz > 0
    ensures Fitted([], Units(json, start), outsz) == s[..Min(|s|, outsz - 1)]
    ensures |s| < outsz ==> Fitted([], Units(json, start), outsz) == s
  {
    UnitsOfEscape(json, start, s);
    FittedFromEmpty(s, outsz);
  }

  /**
   A byte is escaped exactly if section 7 of RFC 8259 says it must be: quotes, backslashes, controls; with two
   characters where the client uses them, else with six.
   */
  lemma EscapedIffMust(c: byte)
    requires c != 0
    ensures if c < 0x20 || c == 34 || c == 92 then EscapeByte(c)[0] == 92 && |EscapeByte(c)| > 1
            else EscapeByte(c) == [c]
    ensures |EscapeByte(c)| == 2 <==> c in {9, 10, 13, 34, 92}
    ensures |EscapeByte(c)| in {1, 2, 6}
  {
  }

  // ---------------------------------------------------------------- finding the value

  // What section 2 of RFC 8259 allows around a colon.
  const Whitespace: seq<byte> := [32, 9, 10, 13]

  predicate AllWhite(s: seq<byte>) {
    forall i | 0 <= i < |s| :: s[i] in Whitespace
  }

  /** p to q is all the whitespace there is from p on. */
  predicate WhiteRun(json: seq<byte>, p: nat, q: nat) {
    p <= q <= |json| && AllWhite(json[p..q]) && (q < |json| ==> json[q] !in Whitespace)
  }

  lemma {:induction false} SkipsWhite(json: seq<byte>, p: nat)
    requires p <= |json|
    ensures WhiteRun(json, p, SkipBlanks(json, p))
    decreases |json| - p
  {
    if p < |json| && IsBlank(json[p]) {
      var q := SkipBlanks(json, p);
      SkipsWhite(json, p + 1);
      assert json[p..q] == [json[p]] + json[p + 1 .. q];
    }
  }

  lemma WhiteRunsAgree(json: seq<byte>, p: nat, q: nat, r: nat)
    requires WhiteRun(json, p, q) && WhiteRun(json, p, r)
    ensures q == r
  {
    WhiteInside(json, p, q);
    WhiteInside(json, p, r);
  }

  lemma WhiteInside(json: seq<byte>, p: nat, q: nat)
    requires p <= q <= |json| && AllWhite(json[p..q])
    ensures forall k | p <= k < q :: json[k] in Whitespace
  {
    forall k | p <= k < q ensures json[k] in Whitespace { assert json[p..q][k - p] == json[k]; }
  }

  /** The first member of that name has its colon at c and its value at v. */
  ghost predicate MemberAt(json: seq<byte>, key: seq<byte>, i: nat, c: nat, v: nat) {
    var needle := [Quote] + key + [Quote];
    && OccursAt(json, needle, i) && (forall k: nat | k < i :: !OccursAt(json, needle, k))
    && WhiteRun(json, i + |needle|, c) && c < |json| && json[c] == 58 && WhiteRun(json, c + 1, v)
  }

  lemma ValueIsAt(json: seq<byte>, key: seq<byte>, v: nat) returns (i: nat, c: nat)
    requires ValueOf(json, key) == Some(v)
    ensures |key| + 3 < MaxNeedle && MemberAt(json, key, i, c, v)
  {
    i := FirstFrom(json, [Quote] + key + [Quote], 0).value;
    c := SkipBlanks(json, i + |key| + 2);
    SkipsWhite(json, i + |key| + 2);
    SkipsWhite(json, c + 1);
  }

  lemma MemberIsFound(json: seq<byte>, key: seq<byte>, i: nat, c: nat, v: nat)
    requires |key| + 3 < MaxNeedle && MemberAt(json, key, i, c, v)
    ensures ValueOf(json, key) == Some(v)
  {
    var p := i + |key| + 2;
    SkipsWhite(json, p);
    WhiteRunsAgree(json, p, c, SkipBlanks(json, p));
    SkipsWhite(json, c + 1);
    WhiteRunsAgree(json, c + 1, v, SkipBlanks(json, c + 1));
  }

  /** find_key gives exactly where the value of the first member of that name starts, if the name is not too long. */
  lemma ValueOfIff(json: seq<byte>, key: seq<byte>, v: nat)
    ensures ValueOf(json, key) == Some(v)
            <==> |key| < 125 && exists i: nat, c: nat :: MemberAt(json, key, i, c, v)
  {
    if ValueOf(json, key) == Some(v) { var i, c := ValueIsAt(json, key, v); }
    forall i: nat, c: nat | |key| < 125 && MemberAt(json, key, i, c, v) ensures ValueOf(json, key) == Some(v) {
      MemberIsFound(json, key, i, c, v);
    }
  }

  // ---------------------------------------------------------------- what a JSON string means

  /** The number a well-formed UTF-8 sequence of up to three bytes encodes (section 4 of RFC 3629). */
  function FromUtf8(u: seq<byte>): Option<nat> {
    if |u| == 1 && u[0] < 0x80 then Some(u[0] as nat)
    else if |u| == 2 && 0xC2 <= u[0] <= 0xDF && IsTail(u[1]) then Some((u[0] as nat - 0xC0) * 64 + TailValue(u[1]))
    else if |u| == 3 && 0xE0 <= u[0] <= 0xEF && IsTail(u[1]) && IsTail(u[2])
            && (u[0] == 0xE0 ==> 0xA0 <= u[1]) && (u[0] == 0xED ==> u[1] <= 0x9F)
    then Some(((u[0] as nat - 0xE0) * 64 + TailValue(u[1])) * 64 + TailValue(u[2]))
    else None
  }

  predicate IsTail(b: byte) {
    0x80 <= b <= 0xBF
  }

  function TailValue(b: byte): nat
    requires IsTail(b)
  {
    b as nat - 0x80
  }

  /** Half of a surrogate pair, which has no UTF-8 form of its own. */
  predicate IsSurrogate(v: nat) {
    0xD800 <= v <= 0xDFFF
  }

  lemma Utf8IsWellFormed(v: nat)
    requires v < 0x1_0000
    ensures FromUtf8(Utf8(v)) == if IsSurrogate(v) then None else Some(v)
  {
    if v >= 0x800 {
      var hi, mid, lo := v / 4096, v / 64 % 64, v % 64;
      assert v == (hi * 64 + mid) * 64 + lo;
    }
  }

  const HexLower: seq<byte> := [48, 49, 50, 51, 52, 53, 54, 55, 56, 57, 97, 98, 99, 100, 101, 102]
  const HexUpper: seq<byte> := [48, 49, 50, 51, 52, 53, 54, 55, 56, 57, 65, 66, 67, 68, 69, 70]

  /** A character of a string as it is written (section 7 of RFC 8259): itself, or an escape. */
  datatype Piece = Plain(b: byte) | Short(letter: byte) | Code(digits: seq<byte>, values: seq<nat>)

  predicate IsPiece(x: Piece) {
    match x
    case Plain(b) => b != 34 && b != 92
    case Short(c) => ShortValue(c).Some?
    case Code(digits, values) =>
      && |digits| == |values| == 4
      && forall i | 0 <= i < 4 ::
           values[i] < 16 && (digits[i] == HexLower[values[i]] || digits[i] == HexUpper[values[i]])
  }

  /** The escapes of two characters. */
  function ShortValue(c: byte): Option<byte> {
    if c == 34 || c == 92 || c == 47 then Some(c)
    else if c == 98 then Some(8)
    else if c == 102 then Some(12)
    else if c == 110 then Some(10)
    else if c == 114 then Some(13)
    else if c == 116 then Some(9)
    else None
  }

  function Written(x: Piece): seq<byte> {
    match x
    case Plain(b) => [b]
    case Short(c) => [92, c]
    case Code(digits, _) => [92, 117] + digits
  }

  function CodeValue(x: Piece): nat
    requires x.Code? && IsPiece(x)
  {
    ((x.values[0] * 16 + x.values[1]) * 16 + x.values[2]) * 16 + x.values[3]
  }

  /** The bytes are what the piece stands for. */
  predicate StandsFor(x: Piece, u: seq<byte>)
    requires IsPiece(x)
  {
    match x
    case Plain(b) => u == [b]
    case Short(c) => u == [ShortValue(c).value]
    case Code(_, _) => FromUtf8(u) == Some(CodeValue(x))
  }

  /** An escaped backspace or form feed, or half of a surrogate pair. */
  predicate Misread(x: Piece)
    requires IsPiece(x)
  {
    x == Short(98) || x == Short(102) || (x.Code? && IsSurrogate(CodeValue(x)))
  }

  lemma HexReads(h: byte, v: nat)
    requires v < 16 && (h == HexLower[v] || h == HexUpper[v])
    ensures HexValue(h) == v
  {
  }

  /** Characters that are no hex digits add nothing. */
  lemma OthersAddNothing(h: byte)
    ensures h !in HexLower && h !in HexUpper ==> HexValue(h) == 0
  {
  }

  lemma CodeTurn(json: seq<byte>, p: nat, x: Piece)
    requires x.Code? && IsPiece(x) && p <= |json| && Written(x) <= json[p..]
    ensures p < |json| && CodeValue(x) < 0x1_0000 && Turn(json, p) == (p + 6, Utf8(CodeValue(x)))
  {
    var w := Written(x);
    assert forall k | 0 <= k < 6 :: json[p + k] == w[k];
    assert forall k | 0 <= k < 4 :: w[k + 2] == x.digits[k];
    HexReads(json[p + 2], x.values[0]);
    HexReads(json[p + 3], x.values[1]);
    HexReads(json[p + 4], x.values[2]);
    HexReads(json[p + 5], x.values[3]);
  }

  /**
   Wherever a character of a JSON string stands, one turn of the loop reads just it, and reads it as what
   section 7 of RFC 8259 says exactly unless it is one of those.
   */
  lemma PieceReadIff(json: seq<byte>, p: nat, x: Piece)
    requires IsPiece(x) && p <= |json| && Written(x) <= json[p..]
    ensures p < |json| && json[p] != Quote && Turn(json, p).0 == p + |Written(x)|
    ensures StandsFor(x, Turn(json, p).1) <==> !Misread(x)
  {
    var w := Written(x);
    assert forall k | 0 <= k < |w| :: json[p + k] == w[k];
    if x.Code? {
      CodeTurn(json, p, x);
      Utf8IsWellFormed(CodeValue(x));
    }
  }

  function AllWritten(xs: seq<Piece>): seq<byte> {
    if xs == [] then [] else Written(xs[0]) + AllWritten(xs[1..])
  }

  /** Character by character, the units are what was written, but for the misread ones. */
  ghost predicate ReadAs(xs: seq<Piece>, units: seq<seq<byte>>)
    requires forall i | 0 <= i < |xs| :: IsPiece(xs[i])
  {
    |units| == |xs| && forall i | 0 <= i < |xs| :: StandsFor(xs[i], units[i]) <==> !Misread(xs[i])
  }

  lemma ReadAsNext(xs: seq<Piece>, units: seq<seq<byte>>)
    requires (forall i | 0 <= i < |xs| :: IsPiece(xs[i])) && xs != [] && units != []
    requires (StandsFor(xs[0], units[0]) <==> !Misread(xs[0])) && ReadAs(xs[1..], units[1..])
    ensures ReadAs(xs, units)
  {
    forall i | 0 <= i < |xs| ensures StandsFor(xs[i], units[i]) <==> !Misread(xs[i]) {
      if i > 0 { assert xs[i] == xs[1..][i - 1] && units[i] == units[1..][i - 1]; }
    }
  }

  lemma UnitsTurn(json: seq<byte>, p: nat)
    requires p < |json| && json[p] != Quote
    ensures var units := Units(json, p);
            units != [] && units[0] == Turn(json, p).1 && units[1..] == Units(json, Turn(json, p).0)
  {
  }

  lemma PieceThen(json: seq<byte>, p: nat, x: Piece, rest: seq<byte>)
    requires IsPiece(x) && p <= |json| && Written(x) + rest <= json[p..]
    ensures p + |Written(x)| <= |json| && rest <= json[p + |Written(x)| ..]
    ensures var units := Units(json, p);
            && units != [] && units[1..] == Units(json, p + |Written(x)|)
            && (StandsFor(x, units[0]) <==> !Misread(x))
  {
    PrefixSplits(Written(x), rest, json, p);
    PieceReadIff(json, p, x);
    UnitsTurn(json, p);
  }

  /** A JSON string closed by a quote is read character by character, each as PieceReadIff says. */
  lemma {:induction false} StringReadIff(json: seq<byte>, p: nat, xs: seq<Piece>)
    requires (forall i | 0 <= i < |xs| :: IsPiece(xs[i])) && p <= |json| && AllWritten(xs) + [34] <= json[p..]
    ensures ReadAs(xs, Units(json, p))
    decreases |xs|
  {
    if xs == [] {
      UnitsAtQuote(json, p);
    } else {
      var rest := AllWritten(xs[1..]) + [34];
      assert AllWritten(xs) + [34] == Written(xs[0]) + rest;
      PieceThen(json, p, xs[0], rest);
      StringReadIff(json, p + |Written(xs[0])|, xs[1..]);
      ReadAsNext(xs, Units(json, p));
    }
  }
}
